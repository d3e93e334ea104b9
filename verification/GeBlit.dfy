/**
 Blits and stretches from their surfaces and rectangles, ge/hcge_linux.c: the compositor gets
 zero-origin views of both surfaces, and reads and writes nothing outside them.
 */
module GeBlit {
  import opened CArithmetic
  import opened Options
  import opened GeNode
  import opened GeBuild
  import GeDraw

  // ----- views -----

  /** A part of a surface as the engine reads it from a node. */
  datatype View = View(base: int, linePixels: int, pixelBytes: int, w: int, h: int)
  {
    /** The 32-bit address of pixel `(i, j)`. */
    function Address(i: int, j: int): int {
      Wrap32(base + (j * linePixels + i) * pixelBytes)
    }
  }

  predicate HasView(node: seq<Word>, context: nat, place: nat)
    requires context < GROUPS && place < GROUPS
  {
    && WellFormed(node) && Selected(node[0], context) && Selected(node[0], place)
    && |GroupIn(node, context)| == |GroupIn(node, place)| == 2
  }

  /** Address and buffer word from the context group, the size from the position group. */
  function ViewIn(node: seq<Word>, context: nat, place: nat): View
    requires context < GROUPS && place < GROUPS && HasView(node, context, place)
  {
    var surface, size := GroupIn(node, context), GroupIn(node, place)[1];
    View(surface[0], Low12(surface[1]), GeDraw.CodeBytes(surface[1] / 0x1000 % 0x20), Low12(size), High12(size))
  }

  /** The view is the part `w` by `h` at `(px, py)` of the surface. */
  predicate Shows(v: View, s: Surface, px: int, py: int, w: int, h: int)
    requires s.format.Some?
  {
    && v.base == OffsetWord(s, px, py) && v.pixelBytes == s.format.value.Bytes()
    && v.linePixels * v.pixelBytes == s.pitch && v.w == w && v.h == h
  }

  /** Higher flags in a buffer word disturb neither pitch nor format. */
  lemma {:induction false} FlagsAbove(word: int, k: nat)
    requires word >= 0
    ensures (word + k * 0x10_0000) % 0x1000 == word % 0x1000
    ensures (word + k * 0x10_0000) / 0x1000 % 0x20 == word / 0x1000 % 0x20
  {
    DivModUnique(word + k * 0x10_0000, 0x1000, word / 0x1000 + k * 0x100, word % 0x1000);
    var q := word / 0x1000;
    DivModUnique(q + k * 0x100, 0x20, q / 0x20 + k * 8, q % 0x20);
  }

  lemma {:induction false} ViewShows(node: seq<Word>, context: nat, place: nat, s: Surface, px: int, py: int,
                                     w: int, h: int, at: Word, k: nat)
    requires context < GROUPS && place < GROUPS && s.Valid() && 0 <= w <= 0xfff && 0 <= h <= 0xfff
    requires BufferWord(s.format.value, s.pitch) + k * 0x10_0000 < U32
    requires HasGroup(node, context, [OffsetWord(s, px, py), BufferWord(s.format.value, s.pitch) + k * 0x10_0000])
    requires HasGroup(node, place, [at, Pair12(w, h)])
    ensures HasView(node, context, place) && Shows(ViewIn(node, context, place), s, px, py, w, h)
  {
    hide WellFormed, Selected, GroupIn, BufferWord, Pair12, OffsetWord;
    FlagsAbove(BufferWord(s.format.value, s.pitch), k);
    BufferWordKeepsPitch(s);
    GeDraw.CodeGivesBytes(s.format.value);
    Pair12RoundTrip(w, h);
  }

  lemma {:induction false} WrapAdd(a: int, b: int)
    ensures Wrap32(Wrap32(a) + b) == Wrap32(a + b)
  {
    assert a + b == a % U32 + b + (a / U32) * U32;
    DivModUnique(a + b, U32, (a % U32 + b) / U32 + a / U32, (a % U32 + b) % U32);
  }

  /** Every pixel of a view is the right pixel of its surface, inside the memory of the surface. */
  lemma {:induction false} ViewInside(v: View, s: Surface, px: int, py: int, w: int, h: int, i: int, j: int)
    requires s.Valid() && Shows(v, s, px, py, w, h)
    requires 0 <= px && 0 <= py && px + w <= s.w && py + h <= s.h && 0 <= i < w && 0 <= j < h
    ensures v.Address(i, j) == Wrap32(s.PixelAddress(px + i, py + j))
    ensures s.phys <= s.PixelAddress(px + i, py + j)
    ensures s.PixelAddress(px + i, py + j) + v.pixelBytes <= s.phys + s.pitch * s.h
  {
    hide Wrap32;
    var bytes := v.pixelBytes;
    WrapAdd(s.PixelAddress(px, py), (j * v.linePixels + i) * bytes);
    OffsetsAdd(v.linePixels, bytes, s.pitch, px, py, i, j);
    GeDraw.PixelInside(v.linePixels, bytes, s.pitch, s.w, s.h, px + i, py + j);
  }

  lemma {:induction false} OffsetsAdd(line: int, bytes: int, pitch: int, px: int, py: int, i: int, j: int)
    requires line * bytes == pitch
    ensures py * pitch + px * bytes + (j * line + i) * bytes == (py + j) * pitch + (px + i) * bytes
  {
    assert (j * line + i) * bytes == j * (line * bytes) + i * bytes;
    assert (py + j) * pitch == py * pitch + j * pitch;
    assert (px + i) * bytes == px * bytes + i * bytes;
  }

  // ----- blits -----

  datatype Turn = Straight | Quarter | Half | ThreeQuarters

  /** The matrix words of a rotation. */
  function TurnMatrix(turn: Turn): (m: Option<seq<Word>>)
    ensures m.Some? ==> |m.value| == 7
    ensures m.None? <==> turn == Straight
  {
    match turn
    case Straight => None
    case Quarter => Some([0, 0, 0x8000_ffff, 0, 0xffff, 0, 0])
    case Half => Some([0, 0x8000_ffff, 0x8000_0000, 0, 0, 0x8000_ffff, 0])
    case ThreeQuarters => Some([0, 0x8000_0000, 0xffff, 0, 0x8000_ffff, 0x8000_0000, 0])
  }

  /** An A8 mask; `stencil` positions it independently of the source rectangle. */
  datatype Mask = Mask(phys: Word, pitch: int, w: int, h: int, x: int, y: int, stencil: bool)
  {
    /** `hcge_mask_surface_valid`. */
    predicate Valid() {
      0 < w <= 0xfff && 0 < h <= 0xfff && phys != 0 && w <= pitch <= 0xfff
    }

    function X(r: Rect): int {
      if stencil then x else r.x
    }

    function Y(r: Rect): int {
      if stencil then y else r.y
    }

    predicate Covers(r: Rect) {
      0 <= X(r) && 0 <= Y(r) && X(r) + r.w <= w && Y(r) + r.h <= h
    }

    function Words(r: Rect): MaskWords {
      MaskWords(phys, 0x1_d000 + pitch % 0x1000, Pair12(X(r), Y(r)),
                Pair12(w - (if stencil then X(r) else r.w), h - (if stencil then Y(r) else r.h)))
    }
  }

  datatype Effects = Effects(flipX: bool, flipY: bool, mask: Option<Mask>, keys: Option<KeyWords>, rop: Word, color: Word)
  {
    function Flips(): (k: nat)
      ensures k <= 3
    {
      N(flipX) + 2 * N(flipY)
    }

    predicate MaskCovers(r: Rect) {
      mask.Some? ==> mask.value.Valid() && mask.value.Covers(r)
    }

    function MaskWords(r: Rect): Option<MaskWords> {
      if mask.Some? then Some(mask.value.Words(r)) else None
    }
  }

  function OutWidth(r: Rect, turn: Turn): int {
    if turn == Quarter || turn == ThreeQuarters then r.h else r.w
  }

  function OutHeight(r: Rect, turn: Turn): int {
    if turn == Quarter || turn == ThreeQuarters then r.w else r.h
  }

  /** The geometric checks of `hcge_blit`. */
  predicate BlitPasses(dst: Surface, src: Surface, r: Rect, dx: int, dy: int, turn: Turn, e: Effects) {
    && 0 <= dx <= 0xfff && 0 <= dy <= 0xfff
    && src.Holds(r) && dst.Valid() && src.Valid() && e.MaskCovers(r)
    && dx + OutWidth(r, turn) <= dst.w && dy + OutHeight(r, turn) <= dst.h
  }

  lemma {:induction false} BufferWordSmall(f: Format, pitch: int)
    ensures 0 <= BufferWord(f, pitch) < 0x4_0000
  {
  }

  /** The compositor node of `hcge_blit`. */
  function BlitOf(dst: Surface, src: Surface, r: Rect, dx: int, dy: int, turn: Turn, e: Effects): seq<Word>
    requires BlitPasses(dst, src, r, dx, dy, turn, e)
  {
    BufferWordSmall(src.format.value, src.pitch);
    BlitNode(OffsetWord(dst, dx, dy), BufferWord(dst.format.value, dst.pitch),
             OffsetWord(src, r.x, r.y), BufferWord(src.format.value, src.pitch) + e.Flips() * 0x10_0000,
             Pair12(OutWidth(r, turn), OutHeight(r, turn)), Pair12(r.w, r.h),
             e.MaskWords(r), e.keys, TurnMatrix(turn), e.rop, e.color)
  }

  /**
   The engine reads from a blit the two views the call is about: the source rectangle of the
   source, and the place of the (turned) result in the destination.
   */
  lemma {:induction false} BlitViews(dst: Surface, src: Surface, r: Rect, dx: int, dy: int, turn: Turn, e: Effects)
    requires BlitPasses(dst, src, r, dx, dy, turn, e)
    ensures var node := BlitOf(dst, src, r, dx, dy, turn, e);
            && HasView(node, 1, 8) && Shows(ViewIn(node, 1, 8), dst, dx, dy, OutWidth(r, turn), OutHeight(r, turn))
            && HasView(node, 3, 10) && Shows(ViewIn(node, 3, 10), src, r.x, r.y, r.w, r.h)
  {
    hide BlitNode, HasGroup, HasView, Shows, BufferWord, Pair12, OffsetWord, TurnMatrix;
    BufferWordSmall(src.format.value, src.pitch);
    BufferWordSmall(dst.format.value, dst.pitch);
    var node := BlitOf(dst, src, r, dx, dy, turn, e);
    var k := e.Flips() + if turn != Straight then 0x400 else 0;
    BlitGroups(OffsetWord(dst, dx, dy), BufferWord(dst.format.value, dst.pitch),
               OffsetWord(src, r.x, r.y), BufferWord(src.format.value, src.pitch) + e.Flips() * 0x10_0000,
               Pair12(OutWidth(r, turn), OutHeight(r, turn)), Pair12(r.w, r.h),
               e.MaskWords(r), e.keys, TurnMatrix(turn), e.rop, e.color);
    ViewShows(node, 1, 8, dst, dx, dy, OutWidth(r, turn), OutHeight(r, turn), 0, 0);
    ViewShows(node, 3, 10, src, r.x, r.y, r.w, r.h, 0, k);
  }

  /** A blit writes only pixels of the destination and reads only pixels of the source rectangle. */
  lemma {:induction false} BlitStaysInside(dst: Surface, src: Surface, r: Rect, dx: int, dy: int, turn: Turn, e: Effects,
                                           i: int, j: int)
    requires BlitPasses(dst, src, r, dx, dy, turn, e)
    ensures var node := BlitOf(dst, src, r, dx, dy, turn, e);
            && HasView(node, 1, 8) && HasView(node, 3, 10)
            && var out, from := ViewIn(node, 1, 8), ViewIn(node, 3, 10);
            && (0 <= i < out.w && 0 <= j < out.h ==>
                  && out.Address(i, j) == Wrap32(dst.PixelAddress(dx + i, dy + j))
                  && dst.phys <= dst.PixelAddress(dx + i, dy + j)
                  && dst.PixelAddress(dx + i, dy + j) + out.pixelBytes <= dst.phys + dst.pitch * dst.h)
            && (0 <= i < from.w && 0 <= j < from.h ==>
                  && from.Address(i, j) == Wrap32(src.PixelAddress(r.x + i, r.y + j))
                  && src.phys <= src.PixelAddress(r.x + i, r.y + j)
                  && src.PixelAddress(r.x + i, r.y + j) + from.pixelBytes <= src.phys + src.pitch * src.h)
  {
    hide BlitOf, HasView, ViewIn, View.Address, Surface.PixelAddress;
    BlitViews(dst, src, r, dx, dy, turn, e);
    var node := BlitOf(dst, src, r, dx, dy, turn, e);
    var out, from := ViewIn(node, 1, 8), ViewIn(node, 3, 10);
    if 0 <= i < out.w && 0 <= j < out.h {
      ViewInside(out, dst, dx, dy, out.w, out.h, i, j);
    }
    if 0 <= i < from.w && 0 <= j < from.h {
      ViewInside(from, src, r.x, r.y, from.w, from.h, i, j);
    }
  }

  // ----- stretches -----

  predicate StretchPasses(dst: Surface, src: Surface, r: Rect, d: Rect, e: Effects) {
    src.Holds(r) && dst.Holds(d) && dst.Valid() && src.Valid() && e.MaskCovers(r)
  }

  /** The step from one destination pixel to the next, in 1/65536 of a source pixel. */
  function ScaleWord(size: int, whole: int): (w: Word)
    requires 0 < size <= 0xfff && 0 < whole <= 0xfff
    ensures 0 <= size * 0x1_0000 - w * whole < whole
  {
    DivBound(size * 0x1_0000, whole);
    size * 0x1_0000 / whole
  }

  lemma {:induction false} DivBound(a: nat, b: nat)
    requires b > 0
    ensures 0 <= a / b <= a
    ensures 0 <= a - a / b * b < b
  {
    var q := a / b;
    assert a == q * b + a % b;
    MulApart(q, b);
    if q >= 1 {
      assert q * (b - 1) == q * b - q;
      assert q * (b - 1) >= 0;
    }
  }

  function ScaleMatrix(r: Rect, d: Rect): (m: seq<Word>)
    requires r.Valid() && d.Valid()
    ensures |m| == 7
  {
    [0x80, ScaleWord(r.w, d.w), 0, r.w * 0x8000, 0, ScaleWord(r.h, d.h), r.h * 0x8000]
  }

  /** The node of `hcge_stretch_blit`. */
  function StretchOf(dst: Surface, src: Surface, r: Rect, d: Rect, e: Effects): seq<Word>
    requires StretchPasses(dst, src, r, d, e)
  {
    BufferWordSmall(src.format.value, src.pitch);
    StretchNode(OffsetWord(dst, d.x, d.y), BufferWord(dst.format.value, dst.pitch),
                OffsetWord(src, r.x, r.y), BufferWord(src.format.value, src.pitch) + e.Flips() * 0x10_0000,
                Pair12(d.w, d.h), Pair12(r.w, r.h), e.MaskWords(r), e.keys, ScaleMatrix(r, d), e.rop, e.color)
  }

  /** A stretch is about the two rectangles, scaled by the ratio of their sizes rounded down. */
  lemma {:induction false} StretchViews(dst: Surface, src: Surface, r: Rect, d: Rect, e: Effects)
    requires StretchPasses(dst, src, r, d, e)
    ensures var node := StretchOf(dst, src, r, d, e);
            && HasView(node, 1, 8) && Shows(ViewIn(node, 1, 8), dst, d.x, d.y, d.w, d.h)
            && HasView(node, 3, 10) && Shows(ViewIn(node, 3, 10), src, r.x, r.y, r.w, r.h)
            && HasGroup(node, 18, ScaleMatrix(r, d))
    ensures 0 <= r.w * 0x1_0000 - ScaleWord(r.w, d.w) * d.w < d.w
    ensures 0 <= r.h * 0x1_0000 - ScaleWord(r.h, d.h) * d.h < d.h
  {
    hide StretchNode, HasGroup, HasView, Shows, BufferWord, Pair12, OffsetWord, ScaleMatrix, ScaleWord;
    BufferWordSmall(src.format.value, src.pitch);
    BufferWordSmall(dst.format.value, dst.pitch);
    var node := StretchOf(dst, src, r, d, e);
    StretchGroups(OffsetWord(dst, d.x, d.y), BufferWord(dst.format.value, dst.pitch),
                  OffsetWord(src, r.x, r.y), BufferWord(src.format.value, src.pitch) + e.Flips() * 0x10_0000,
                  Pair12(d.w, d.h), Pair12(r.w, r.h), e.MaskWords(r), e.keys, ScaleMatrix(r, d), e.rop, e.color);
    ViewShows(node, 1, 8, dst, d.x, d.y, d.w, d.h, 0, 0);
    ViewShows(node, 3, 10, src, r.x, r.y, r.w, r.h, 0, e.Flips() + 0x400);
  }

  /** A stretch stays inside its two rectangles. */
  lemma {:induction false} StretchStaysInside(dst: Surface, src: Surface, r: Rect, d: Rect, e: Effects, i: int, j: int)
    requires StretchPasses(dst, src, r, d, e)
    ensures var node := StretchOf(dst, src, r, d, e);
            && HasView(node, 1, 8) && HasView(node, 3, 10)
            && var out, from := ViewIn(node, 1, 8), ViewIn(node, 3, 10);
            && (0 <= i < out.w && 0 <= j < out.h ==>
                  && out.Address(i, j) == Wrap32(dst.PixelAddress(d.x + i, d.y + j))
                  && dst.phys <= dst.PixelAddress(d.x + i, d.y + j)
                  && dst.PixelAddress(d.x + i, d.y + j) + out.pixelBytes <= dst.phys + dst.pitch * dst.h)
            && (0 <= i < from.w && 0 <= j < from.h ==>
                  && from.Address(i, j) == Wrap32(src.PixelAddress(r.x + i, r.y + j))
                  && src.phys <= src.PixelAddress(r.x + i, r.y + j)
                  && src.PixelAddress(r.x + i, r.y + j) + from.pixelBytes <= src.phys + src.pitch * src.h)
  {
    hide StretchOf, HasView, ViewIn, View.Address, Surface.PixelAddress, HasGroup, ScaleMatrix;
    StretchViews(dst, src, r, d, e);
    var node := StretchOf(dst, src, r, d, e);
    var out, from := ViewIn(node, 1, 8), ViewIn(node, 3, 10);
    if 0 <= i < out.w && 0 <= j < out.h {
      ViewInside(out, dst, d.x, d.y, out.w, out.h, i, j);
    }
    if 0 <= i < from.w && 0 <= j < from.h {
      ViewInside(from, src, r.x, r.y, from.w, from.h, i, j);
    }
  }

  // ----- what the matrix does -----

  /** A matrix word: sign and 16.16 magnitude, as `hcge_ge_coeff` writes it. */
  function Coefficient(w: Word): int {
    if w >= 0x8000_0000 then 0x8000_0000 - w else w
  }

  /** The source point of a destination point, in 1/65536, both relative to the centre but for the offsets. */
  function Mapped(m: seq<Word>, x: int, y: int): (int, int)
    requires |m| == 7
  {
    (Coefficient(m[1]) * x + Coefficient(m[2]) * y + Coefficient(m[3]),
     Coefficient(m[4]) * x + Coefficient(m[5]) * y + Coefficient(m[6]))
  }

  /** Rotation by a number of quarter turns, each of which takes `(x, y)` to `(-y, x)`. */
  function Rotated(quarters: nat, x: int, y: int): (int, int) {
    if quarters == 0 then (x, y)
    else
      var p := Rotated(quarters - 1, x, y);
      (-p.1, p.0)
  }

  function Quarters(turn: Turn): nat {
    match turn
    case Straight => 0
    case Quarter => 1
    case Half => 2
    case ThreeQuarters => 3
  }

  /** Each rotation matrix is the rotation by its number of quarter turns, at unit scale. */
  lemma {:induction false} TurnRotates(turn: Turn, x: int, y: int)
    requires turn != Straight
    ensures Mapped(TurnMatrix(turn).value, x, y) ==
            (0xffff * Rotated(Quarters(turn), x, y).0, 0xffff * Rotated(Quarters(turn), x, y).1)
    ensures TurnMatrix(turn).value[0] == 0
  {
    var m := TurnMatrix(turn).value;
    assert Rotated(0, x, y) == (x, y);
    assert Rotated(1, x, y) == (-y, x);
    assert Rotated(2, x, y) == (-x, -y);
    assert Rotated(3, x, y) == (y, -x);
    match turn
    case Quarter => assert m[1] == 0 && m[2] == 0x8000_ffff && m[3] == 0 && m[4] == 0xffff && m[5] == 0 && m[6] == 0;
    case Half => assert m[1] == 0x8000_ffff && m[2] == 0x8000_0000 && m[3] == 0 && m[4] == 0 && m[5] == 0x8000_ffff && m[6] == 0;
    case ThreeQuarters =>
      assert m[1] == 0x8000_0000 && m[2] == 0xffff && m[3] == 0 && m[4] == 0x8000_ffff && m[5] == 0x8000_0000 && m[6] == 0;
  }

  /** The result has the size of the turned source. */
  lemma {:induction false} OutSizeIsTurned(r: Rect, turn: Turn)
    requires r.w > 0 && r.h > 0
    ensures var p := Rotated(Quarters(turn), OutWidth(r, turn), OutHeight(r, turn));
            (p.0 == r.w || p.0 == -r.w) && (p.1 == r.h || p.1 == -r.h)
    ensures OutWidth(r, turn) > 0 && OutHeight(r, turn) > 0
  {
    var w, h := OutWidth(r, turn), OutHeight(r, turn);
    assert Rotated(0, w, h) == (w, h);
    assert Rotated(1, w, h) == (-h, w);
    assert Rotated(2, w, h) == (-w, -h);
    assert Rotated(3, w, h) == (h, -w);
  }

  /** The rotation in a blit node is the one that was asked for, and there is none otherwise. */
  lemma {:induction false} BlitTurns(dst: Surface, src: Surface, r: Rect, dx: int, dy: int, turn: Turn, e: Effects)
    requires BlitPasses(dst, src, r, dx, dy, turn, e)
    ensures var node := BlitOf(dst, src, r, dx, dy, turn, e);
            turn != Straight ==> HasGroup(node, 18, TurnMatrix(turn).value)
  {
    hide BlitNode, HasGroup, BufferWord, Pair12, OffsetWord, TurnMatrix;
    BufferWordSmall(src.format.value, src.pitch);
    BlitGroups(OffsetWord(dst, dx, dy), BufferWord(dst.format.value, dst.pitch),
               OffsetWord(src, r.x, r.y), BufferWord(src.format.value, src.pitch) + e.Flips() * 0x10_0000,
               Pair12(OutWidth(r, turn), OutHeight(r, turn)), Pair12(r.w, r.h),
               e.MaskWords(r), e.keys, TurnMatrix(turn), e.rop, e.color);
  }

  /** The flips and the matrix flag are bits 20, 21 and 30 of the source buffer word. */
  lemma {:induction false} SourceFlags(word: int, flipX: bool, flipY: bool, turned: bool)
    requires 0 <= word < 0x10_0000
    ensures var w := word + (N(flipX) + 2 * N(flipY)) * 0x10_0000 + (if turned then 0x4000_0000 else 0);
            && (w / 0x10_0000 % 2 == 1 <==> flipX)
            && (w / 0x20_0000 % 2 == 1 <==> flipY)
            && (w / 0x4000_0000 % 2 == 1 <==> turned)
  {
  }

  lemma {:induction false} BlitFlips(dst: Surface, src: Surface, r: Rect, dx: int, dy: int, turn: Turn, e: Effects)
    requires BlitPasses(dst, src, r, dx, dy, turn, e)
    ensures var node := BlitOf(dst, src, r, dx, dy, turn, e);
            && HasView(node, 3, 10)
            && var w := GroupIn(node, 3)[1];
            && (w / 0x10_0000 % 2 == 1 <==> e.flipX) && (w / 0x20_0000 % 2 == 1 <==> e.flipY)
            && (w / 0x4000_0000 % 2 == 1 <==> turn != Straight)
  {
    hide BlitNode, BufferWord, Pair12, OffsetWord, TurnMatrix, WellFormed, Selected, GroupIn;
    BufferWordSmall(src.format.value, src.pitch);
    BlitViews(dst, src, r, dx, dy, turn, e);
    BlitGroups(OffsetWord(dst, dx, dy), BufferWord(dst.format.value, dst.pitch),
               OffsetWord(src, r.x, r.y), BufferWord(src.format.value, src.pitch) + e.Flips() * 0x10_0000,
               Pair12(OutWidth(r, turn), OutHeight(r, turn)), Pair12(r.w, r.h),
               e.MaskWords(r), e.keys, TurnMatrix(turn), e.rop, e.color);
    SourceFlags(BufferWord(src.format.value, src.pitch), e.flipX, e.flipY, turn != Straight);
  }

  /** A stretch maps every destination point, given in half pixels from the centre, into the source rectangle. */
  lemma {:induction false} StretchMapsInside(r: Rect, d: Rect, x2: int, y2: int)
    requires r.Valid() && d.Valid() && -d.w <= x2 <= d.w && -d.h <= y2 <= d.h
    ensures var m := ScaleMatrix(r, d);
            && 0 <= Coefficient(m[1]) * x2 + 2 * Coefficient(m[3]) <= 2 * r.w * 0x1_0000
            && 0 <= Coefficient(m[5]) * y2 + 2 * Coefficient(m[6]) <= 2 * r.h * 0x1_0000
            && Coefficient(m[2]) == 0 && Coefficient(m[4]) == 0
  {
    hide ScaleWord;
    var sx, sy := ScaleWord(r.w, d.w), ScaleWord(r.h, d.h);
    ScaledWithin(sx, x2, d.w, r.w * 0x1_0000);
    ScaledWithin(sy, y2, d.h, r.h * 0x1_0000);
    ScaleSmall(r.w, d.w);
    ScaleSmall(r.h, d.h);
  }

  lemma {:induction false} ScaleSmall(size: int, whole: int)
    requires 0 < size <= 0xfff && 0 < whole <= 0xfff
    ensures ScaleWord(size, whole) < 0x8000_0000
  {
    DivBound(size * 0x1_0000, whole);
  }

  lemma {:induction false} ScaledWithin(scale: int, x2: int, whole: int, limit: int)
    requires scale >= 0 && -whole <= x2 <= whole && 0 <= limit - scale * whole
    ensures -limit <= scale * x2 <= limit
  {
    assert scale * (whole - x2) == scale * whole - scale * x2;
    assert scale * (whole + x2) == scale * whole + scale * x2;
    Product(scale, whole - x2);
    Product(scale, whole + x2);
  }

  lemma {:induction false} Product(a: int, b: int)
    requires a >= 0 && b >= 0
    ensures a * b >= 0
  {
  }

  // ----- the mask -----

  /** The check on a mask asks exactly that it has a byte for every source pixel. */
  lemma {:induction false} CoversIff(mask: Mask, r: Rect)
    requires r.w > 0 && r.h > 0
    ensures mask.Covers(r) <==>
            forall i, j :: Rect(0, 0, r.w, r.h).Contains(i, j) ==> Rect(-mask.X(r), -mask.Y(r), mask.w, mask.h).Contains(i, j)
  {
    var view, all := Rect(0, 0, r.w, r.h), Rect(-mask.X(r), -mask.Y(r), mask.w, mask.h);
    assert view.Contains(0, 0) && view.Contains(r.w - 1, r.h - 1);
    if forall i, j :: view.Contains(i, j) ==> all.Contains(i, j) {
      assert all.Contains(0, 0) && all.Contains(r.w - 1, r.h - 1);
    }
  }

  /** The checks of a blit ask exactly that source, destination and mask have all the pixels. */
  lemma {:induction false} BlitPassesIff(dst: Surface, src: Surface, r: Rect, dx: int, dy: int, turn: Turn, e: Effects)
    requires dst.Valid() && src.Valid() && r.w > 0 && r.h > 0
    ensures BlitPasses(dst, src, r, dx, dy, turn, e) <==>
            src.Holds(r) && dst.Holds(Rect(dx, dy, OutWidth(r, turn), OutHeight(r, turn))) && e.MaskCovers(r)
  {
  }

  /** The mask in a blit node starts at the asked position, and every mask byte used lies in the mask. */
  lemma {:induction false} BlitMask(dst: Surface, src: Surface, r: Rect, dx: int, dy: int, turn: Turn, e: Effects, i: int, j: int)
    requires BlitPasses(dst, src, r, dx, dy, turn, e) && e.mask.Some? && 0 <= i < r.w && 0 <= j < r.h
    ensures var node := BlitOf(dst, src, r, dx, dy, turn, e);
            var mask := e.mask.value;
            && HasGroup(node, 4, [mask.phys, 0x1_d000 + mask.pitch])
            && (mask.X(r), mask.Y(r)) == (if mask.stencil then (mask.x, mask.y) else (r.x, r.y))
            && HasGroup(node, 11, [Pair12(mask.X(r), mask.Y(r)), mask.Words(r).margin])
            && Low12(mask.Words(r).margin) + (if mask.stencil then mask.X(r) else r.w) == mask.w
            && High12(mask.Words(r).margin) + (if mask.stencil then mask.Y(r) else r.h) == mask.h
            && Low12(Pair12(mask.X(r), mask.Y(r))) == mask.X(r) && High12(Pair12(mask.X(r), mask.Y(r))) == mask.Y(r)
            && var at := mask.phys + (mask.Y(r) + j) * mask.pitch + (mask.X(r) + i);
            mask.phys <= at < mask.phys + mask.pitch * mask.h
  {
    hide BlitNode, HasGroup, BufferWord, Pair12, OffsetWord, TurnMatrix, Low12, High12;
    BufferWordSmall(src.format.value, src.pitch);
    BlitGroups(OffsetWord(dst, dx, dy), BufferWord(dst.format.value, dst.pitch),
               OffsetWord(src, r.x, r.y), BufferWord(src.format.value, src.pitch) + e.Flips() * 0x10_0000,
               Pair12(OutWidth(r, turn), OutHeight(r, turn)), Pair12(r.w, r.h),
               e.MaskWords(r), e.keys, TurnMatrix(turn), e.rop, e.color);
    var mask := e.mask.value;
    Pair12RoundTrip(mask.X(r), mask.Y(r));
    Pair12RoundTrip(mask.w - (if mask.stencil then mask.X(r) else r.w), mask.h - (if mask.stencil then mask.Y(r) else r.h));
    GeDraw.PixelInside(mask.pitch, 1, mask.pitch, mask.w, mask.h, mask.X(r) + i, mask.Y(r) + j);
  }
}
