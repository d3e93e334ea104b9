/**
 The node builders of ge/hcge_linux.c: fill, blit and stretch write their command nodes by
 hand, word by word. The colour, colour-key and raster-operation words are taken as given.
 */
module GeBuild {
  import opened Options
  import opened CArithmetic
  import opened GeNode

  // ----- surfaces and rectangles -----

  datatype Format = ARGB1555 | RGB16 | RGB32 | ARGB | ARGB4444 | RGB555 | BGR555
  {
    function Code(): nat {
      match this
      case ARGB1555 => 5
      case RGB16 => 6
      case RGB32 => 0
      case ARGB => 1
      case ARGB4444 => 3
      case RGB555 => 4
      case BGR555 => 4
    }

    function Bytes(): nat {
      match this
      case RGB32 => 4
      case ARGB => 4
      case _ => 2
    }
  }

  datatype Rect = Rect(x: int, y: int, w: int, h: int)
  {
    predicate Contains(px: int, py: int) {
      x <= px < x + w && y <= py < y + h
    }

    /** `hcge_rectangle_valid`. */
    predicate Valid() {
      0 <= x <= 0xfff && 0 <= y <= 0xfff && 0 < w <= 0xfff && 0 < h <= 0xfff
    }
  }

  /** A surface and the buffer behind it; `format` is `None` when the engine has no code for it. */
  datatype Surface = Surface(format: Option<Format>, w: int, h: int, phys: int, pitch: int)
  {
    /** `hcge_surface_valid`. */
    predicate Valid() {
      && format.Some? && 0 < w <= 0xfff && 0 < h <= 0xfff
      && 0 < phys < U32 && phys % format.value.Bytes() == 0
      && w * format.value.Bytes() <= pitch < U32
      && pitch % format.value.Bytes() == 0 && pitch / format.value.Bytes() <= 0xfff
    }

    /** `hcge_rectangle_in_surface`. */
    predicate Holds(r: Rect) {
      r.Valid() && r.x + r.w <= w && r.y + r.h <= h
    }

    /** Address of the first byte of a pixel. */
    function PixelAddress(px: int, py: int): int
      requires format.Some?
    {
      phys + py * pitch + px * format.value.Bytes()
    }
  }

  // ----- encoded words -----

  /** `hcge_xy` and `hcge_wh`: two 12-bit fields. */
  function Pair12(low: int, high: int): Word {
    high % 0x1000 * 0x1_0000 + low % 0x1000
  }

  function Low12(word: Word): int {
    word % 0x1000
  }

  function High12(word: Word): int {
    word / 0x1_0000 % 0x1000
  }

  lemma {:induction false} Pair12RoundTrip(low: int, high: int)
    ensures Low12(Pair12(low, high)) == low <==> 0 <= low <= 0xfff
    ensures High12(Pair12(low, high)) == high <==> 0 <= high <= 0xfff
    ensures Low12(Pair12(low, high)) == low % 0x1000 && High12(Pair12(low, high)) == high % 0x1000
    ensures Pair12(low, high) == Low12(Pair12(low, high)) + 0x1_0000 * High12(Pair12(low, high))
  {
    var l, h := low % 0x1000, high % 0x1000;
    TwoFields(l, h);
    Field12(low);
    Field12(high);
  }

  lemma {:induction false} TwoFields(l: int, h: int)
    requires 0 <= l < 0x1000 && 0 <= h < 0x1000
    ensures (h * 0x1_0000 + l) % 0x1000 == l && (h * 0x1_0000 + l) / 0x1_0000 % 0x1000 == h
  {
    DivModUnique(h * 0x1_0000 + l, 0x1000, h * 0x10, l);
    DivModUnique(h * 0x1_0000 + l, 0x1_0000, h, l);
  }

  lemma {:induction false} Field12(x: int)
    ensures 0 <= x % 0x1000 < 0x1000 && (x % 0x1000 == x <==> 0 <= x <= 0xfff)
  {
  }

  /** A valid surface holds exactly the rectangles with an extent all of whose pixels it has. */
  lemma {:induction false} HoldsIff(s: Surface, r: Rect)
    requires s.Valid()
    ensures s.Holds(r) <==>
            r.w > 0 && r.h > 0 && forall px, py :: r.Contains(px, py) ==> 0 <= px < s.w && 0 <= py < s.h
  {
    if r.w > 0 && r.h > 0 {
      assert r.Contains(r.x, r.y) && r.Contains(r.x + r.w - 1, r.y + r.h - 1);
    }
  }

  /** `hcge_surface_buffer`: format code, pixels per line, and the BGR order bit. */
  function BufferWord(format: Format, pitch: int): Word {
    format.Code() * 0x1000 + pitch / format.Bytes() % 0x1000 + (if format == BGR555 then 0x2_0000 else 0)
  }

  /** The line pitch in bytes can be read back from the buffer word of a valid surface. */
  lemma {:induction false} BufferWordKeepsPitch(s: Surface)
    requires s.Valid()
    ensures var word := BufferWord(s.format.value, s.pitch);
            && Low12(word) * s.format.value.Bytes() == s.pitch
            && word / 0x1000 % 0x20 == s.format.value.Code()
            && (word / 0x2_0000 % 2 == 1 <==> s.format.value == BGR555)
  {
    var bytes := s.format.value.Bytes();
    assert s.pitch == s.pitch / bytes * bytes;
  }

  /** A surface is valid exactly when it has a known format, a size and a pitch that survive encoding, and aligned memory. */
  lemma {:induction false} SurfaceValidIff(s: Surface)
    ensures s.Valid() <==>
            && s.format.Some? && s.w > 0 && s.h > 0
            && Low12(Pair12(s.w, s.h)) == s.w && High12(Pair12(s.w, s.h)) == s.h
            && 0 < s.phys < U32 && s.phys % s.format.value.Bytes() == 0
            && s.pitch < U32 && s.w * s.format.value.Bytes() <= s.pitch
            && Low12(BufferWord(s.format.value, s.pitch)) * s.format.value.Bytes() == s.pitch
  {
    hide Pair12, High12;
    Pair12RoundTrip(s.w, s.h);
    if s.format.Some? && s.pitch >= 0 {
      PitchKeptIff(s.format.value, s.pitch);
    }
  }

  lemma {:induction false} PitchKeptIff(f: Format, pitch: int)
    requires pitch >= 0
    ensures Low12(BufferWord(f, pitch)) * f.Bytes() == pitch <==> pitch % f.Bytes() == 0 && pitch / f.Bytes() <= 0xfff
  {
    var bytes := f.Bytes();
    assert pitch == pitch / bytes * bytes + pitch % bytes;
    assert Low12(BufferWord(f, pitch)) == pitch / bytes % 0x1000;
  }

  /** The buffer word tells every two formats apart. */
  lemma {:induction false} FormatsDiffer(f: Format, g: Format, pitch: int, other: int)
    requires f != g
    ensures BufferWord(f, pitch) / 0x1000 != BufferWord(g, other) / 0x1000
    ensures BufferWord(BGR555, pitch) == BufferWord(RGB555, pitch) + 0x2_0000
    ensures f.Code() <= 6 && f.Code() != 2
  {
  }

  /** `hcge_surface_offset`, a 32-bit address. */
  function OffsetWord(s: Surface, px: int, py: int): Word
    requires s.format.Some?
  {
    Wrap32(s.PixelAddress(px, py))
  }

  // ----- fill -----

  /** The fill node; `key` is the destination colour key when that effect is on. */
  function FillNode(dst: Surface, r: Rect, blend: bool, color: Word, key: Option<Word>, rop: Word): seq<Word>
    requires dst.Valid()
  {
    var buffer := BufferWord(dst.format.value, dst.pitch);
    [if key.Some? then 0x0200_83e7 else 0x0200_8367,
     if blend then 0x00a0_0301 else 0x00a0_0003,
     dst.phys, buffer, dst.phys, buffer,
     color, 0, 0,
     if blend then 1 else dst.format.value.Code()]
    + (if key.Some? then [key.value, 0] else [])
    + [Pair12(r.x, r.y), Pair12(r.w, r.h), Pair12(r.x, r.y), rop]
  }

  // ----- blit -----

  /** The node of a plain copy between surfaces of one format. */
  function DirectBlitNode(dst: Surface, src: Surface, r: Rect, dx: int, dy: int): seq<Word>
    requires dst.Valid() && src.Valid()
  {
    [0x0200_0307, 0x0000_0002,
     dst.phys, BufferWord(dst.format.value, dst.pitch),
     src.phys, BufferWord(src.format.value, src.pitch),
     Pair12(dx, dy), Pair12(r.w, r.h), Pair12(r.x, r.y)]
  }

  /** Mask surface words: address, buffer, position, margins. */
  datatype MaskWords = MaskWords(phys: Word, buffer: Word, position: Word, margin: Word)

  /** Colour keys in the order destination, source. */
  datatype KeyWords = KeyWords(dst: Word, src: Word)

  // The optional parts of a compositor node.

  function MaskContext(mask: Option<MaskWords>): (ws: seq<Word>)
    ensures |ws| == if mask.Some? then 2 else 0
  {
    if mask.Some? then [mask.value.phys, mask.value.buffer] else []
  }

  function MaskPosition(mask: Option<MaskWords>): (ws: seq<Word>)
    ensures |ws| == if mask.Some? then 2 else 0
  {
    if mask.Some? then [mask.value.position, mask.value.margin] else []
  }

  function ColorKeys(keys: Option<KeyWords>): (ws: seq<Word>)
    ensures |ws| == if keys.Some? then 2 else 0
  {
    if keys.Some? then [keys.value.dst, keys.value.src] else []
  }

  function Matrix(matrix: Option<seq<Word>>): seq<Word> {
    if matrix.Some? then matrix.value else []
  }

  /** The compositor node of `hcge_blit`; rotations carry the seven matrix words. */
  function BlitNode(dst: Word, dstBuffer: Word, src: Word, srcBuffer: Word, outSize: Word, srcSize: Word,
                    mask: Option<MaskWords>, keys: Option<KeyWords>, matrix: Option<seq<Word>>,
                    rop: Word, color: Word): seq<Word>
    requires matrix.Some? ==> |matrix.value| == 7
    requires srcBuffer < 0x4000_0000
  {
    [0x0202_870f + (if matrix.Some? then 0x4_0000 else 0)
       + (if mask.Some? then 0x810 else 0) + (if keys.Some? then 0x80 else 0),
     0x00a0_0009 + (if matrix.Some? then 0x3000 else 0) + (if mask.Some? then 0x40 else 0),
     dst, dstBuffer, dst, dstBuffer,
     src, (if matrix.Some? then 0x4000_0000 else 0) + srcBuffer]
    + (MaskContext(mask) + ColorKeys(keys))
    + [0, outSize, 0, 0, srcSize]
    + MaskPosition(mask)
    + ([rop, color] + Matrix(matrix))
  }

  /** The node of `hcge_stretch_blit`: a mask context without a mask position, always a matrix. */
  function StretchNode(dst: Word, dstBuffer: Word, src: Word, srcBuffer: Word, outSize: Word, srcSize: Word,
                       mask: Option<MaskWords>, keys: Option<KeyWords>, matrix: seq<Word>,
                       rop: Word, color: Word): seq<Word>
    requires |matrix| == 7 && srcBuffer < 0x4000_0000
  {
    [0x0206_870f + (if mask.Some? then 0x10 else 0) + (if keys.Some? then 0x80 else 0),
     0x00a0_3009 + (if mask.Some? then 0x40 else 0),
     dst, dstBuffer, dst, dstBuffer,
     src, 0x4000_0000 + srcBuffer]
    + (MaskContext(mask) + ColorKeys(keys))
    + [0, outSize, 0, 0, srcSize]
    + []
    + ([rop, color] + matrix)
  }

  // ----- the grammar the builders follow -----

  /** A node without records: a header, and exactly the words it announces. */
  predicate WellFormed(node: seq<Word>) {
    node != [] && IsHeader(node[0]) && |node| == NodeWords(node[0])
  }

  // A header by its group bits: bit `g` of the word is `k.Has(g)`, and bit 25 is set.

  /** The kinds of node the builders write, by what is optional in them. */
  datatype Kind =
    | Fill(key: bool)
    | Direct
    | Blit(mask: bool, keys: bool, matrix: bool)
    | Stretch(mask: bool, keys: bool)
  {
    /** The node of this kind carries group `g`. */
    predicate Has(g: nat) {
      match this
      case Fill(key) => g <= 2 || g == 5 || g == 6 || (key && g == 7) || g == 8 || g == 9 || g == 15
      case Direct => g <= 2 || g == 8 || g == 9
      case Blit(mask, keys, matrix) =>
        g <= 3 || (mask && (g == 4 || g == 11)) || (keys && g == 7) || 8 <= g <= 10 || g == 15 || g == 17
        || (matrix && g == 18)
      case Stretch(mask, keys) =>
        g <= 3 || (mask && g == 4) || (keys && g == 7) || 8 <= g <= 10 || g == 15 || g == 17 || g == 18
    }
  }

  function N(b: bool): nat {
    if b then 1 else 0
  }

  /** The header of the kind, shifted right by `g`. */
  function Value(k: Kind, g: nat): nat
    requires g <= GROUPS
    decreases GROUPS - g
  {
    if g == GROUPS then 32 else N(k.Has(g)) + 2 * Value(k, g + 1)
  }

  /** Words of the groups from `g` on. */
  function Length(k: Kind, g: nat): nat
    requires g <= GROUPS
    decreases GROUPS - g
  {
    if g == GROUPS then 0 else (if k.Has(g) then LayoutOf(g).words else 0) + Length(k, g + 1)
  }

  lemma {:induction false} ValueStep(k: Kind, g: nat)
    requires g < GROUPS
    ensures Value(k, g) == N(k.Has(g)) + 2 * Value(k, g + 1) && Value(k, GROUPS) == 32
  {
    hide N, Kind.Has;
  }

  lemma {:induction false} LengthStep(k: Kind, g: nat)
    requires g < GROUPS
    ensures Length(k, g) == (if k.Has(g) then LayoutOf(g).words else 0) + Length(k, g + 1) && Length(k, GROUPS) == 0
  {
    hide LayoutOf, Kind.Has;
  }

  lemma {:induction false} BitDoubles(g: nat)
    requires g + 1 < GROUPS
    ensures Bit(g + 1) == 2 * Bit(g) && Bit(0) == 1
  {
  }

  lemma {:induction false} HalveQuotient(x: nat, p: nat)
    requires p > 0
    ensures x / (2 * p) == x / p / 2
  {
    var q, r := x / p, x % p;
    assert x == (q / 2) * (2 * p) + (q % 2 * p + r);
    DivModUnique(x, 2 * p, q / 2, q % 2 * p + r);
  }

  lemma {:induction false} ShiftedValue(k: Kind, g: nat)
    requires g < GROUPS
    ensures Value(k, 0) / Bit(g) == Value(k, g)
  {
    hide Bit, Kind.Has, Value;
    BitDoubles(0);
    if g > 0 {
      ShiftedValue(k, g - 1);
      BitDoubles(g - 1);
      HalveQuotient(Value(k, 0), Bit(g - 1));
      ValueStep(k, g - 1);
      Halve(N(k.Has(g - 1)), Value(k, g));
    }
  }

  lemma {:induction false} Halve(b: nat, v: nat)
    requires b <= 1
    ensures (b + 2 * v) / 2 == v && (b + 2 * v) % 2 == b
  {
  }

  /** The header selects exactly the groups of the kind. */
  lemma {:induction false} SelectedIs(k: Kind, header: Word, g: nat)
    requires g < GROUPS && header == Value(k, 0)
    ensures Selected(header, g) == k.Has(g)
  {
    hide Bit, Value, Kind.Has;
    ShiftedValue(k, g);
    ValueStep(k, g);
    Halve(N(k.Has(g)), Value(k, g + 1));
  }

  lemma {:induction false} LengthIs(k: Kind, header: Word, g: nat)
    requires g <= GROUPS && header == Value(k, 0)
    ensures GroupWords(header, g) == Length(k, g)
    decreases GROUPS - g
  {
    hide Value, Selected, LayoutOf, Kind.Has;
    if g < GROUPS {
      SelectedIs(k, header, g);
      LengthIs(k, header, g + 1);
    }
  }

  // The header and the length, four groups at a time.

  lemma {:induction false} Chunk(k: Kind, g: nat)
    requires g + 4 <= GROUPS
    ensures Value(k, g) == N(k.Has(g)) + 2 * N(k.Has(g + 1)) + 4 * N(k.Has(g + 2)) + 8 * N(k.Has(g + 3))
                           + 16 * Value(k, g + 4)
    ensures Length(k, g) == (if k.Has(g) then LayoutOf(g).words else 0)
                            + (if k.Has(g + 1) then LayoutOf(g + 1).words else 0)
                            + (if k.Has(g + 2) then LayoutOf(g + 2).words else 0)
                            + (if k.Has(g + 3) then LayoutOf(g + 3).words else 0) + Length(k, g + 4)
  {
    hide N, Value, Kind.Has, Length, LayoutOf;
    ValueStep(k, g); ValueStep(k, g + 1); ValueStep(k, g + 2); ValueStep(k, g + 3);
    LengthStep(k, g); LengthStep(k, g + 1); LengthStep(k, g + 2); LengthStep(k, g + 3);
  }

  lemma {:induction false} Groups0To3(k: Kind)
    ensures Value(k, 0) == (if k.Fill? || k.Direct? then 7 else 15) + 16 * Value(k, 4)
    ensures Length(k, 0) == (if k.Fill? || k.Direct? then 5 else 7) + Length(k, 4)
  {
    hide Value, Length;
    Chunk(k, 0);
  }

  lemma {:induction false} Groups4To7(k: Kind)
    ensures Value(k, 4) == (match k case Fill(key) => 6 + 8 * N(key) case Direct => 0
                            case Blit(m, c, _) => N(m) + 8 * N(c) case Stretch(m, c) => N(m) + 8 * N(c))
                           + 16 * Value(k, 8)
    ensures Length(k, 4) == (match k case Fill(key) => 4 + 2 * N(key) case Direct => 0
                             case Blit(m, c, _) => 2 * N(m) + 2 * N(c) case Stretch(m, c) => 2 * N(m) + 2 * N(c))
                            + Length(k, 8)
  {
    hide Value, Length;
    Chunk(k, 4);
  }

  lemma {:induction false} Groups8To11(k: Kind)
    ensures Value(k, 8) == (match k case Fill(_) => 3 case Direct => 3 case Blit(m, _, _) => 7 + 8 * N(m)
                            case Stretch(_, _) => 7) + 16 * Value(k, 12)
    ensures Length(k, 8) == (match k case Fill(_) => 3 case Direct => 3 case Blit(m, _, _) => 5 + 2 * N(m)
                             case Stretch(_, _) => 5) + Length(k, 12)
  {
    hide Value, Length;
    Chunk(k, 8);
  }

  lemma {:induction false} Groups12To15(k: Kind)
    ensures Value(k, 12) == (if k.Direct? then 0 else 8) + 16 * Value(k, 16)
    ensures Length(k, 12) == (if k.Direct? then 0 else 1) + Length(k, 16)
  {
    hide Value, Length;
    Chunk(k, 12);
  }

  lemma {:induction false} Groups16To19(k: Kind)
    ensures Value(k, 16) == (match k case Fill(_) => 0 case Direct => 0 case Blit(_, _, x) => 2 + 4 * N(x)
                             case Stretch(_, _) => 6) + 512
    ensures Length(k, 16) == (match k case Fill(_) => 0 case Direct => 0 case Blit(_, _, x) => 1 + 7 * N(x)
                              case Stretch(_, _) => 8)
  {
    hide Value, Length;
    Chunk(k, 16);
    ValueStep(k, 0);
    LengthStep(k, 0);
  }

  /** The header word of each kind, as the builders spell it. */
  function HeaderOf(k: Kind): Word {
    match k
    case Fill(key) => 0x0200_8367 + 0x80 * N(key)
    case Direct => 0x0200_0307
    case Blit(m, c, x) => 0x0202_870f + 0x810 * N(m) + 0x80 * N(c) + 0x4_0000 * N(x)
    case Stretch(m, c) => 0x0206_870f + 0x10 * N(m) + 0x80 * N(c)
  }

  /** The length of each kind, header included. */
  function LengthOf(k: Kind): nat {
    match k
    case Fill(key) => 14 + 2 * N(key)
    case Direct => 9
    case Blit(m, c, x) => 15 + 4 * N(m) + 2 * N(c) + 7 * N(x)
    case Stretch(m, c) => 22 + 2 * N(m) + 2 * N(c)
  }

  lemma {:induction false} KindHeader(k: Kind)
    ensures Value(k, 0) == HeaderOf(k) && 1 + Length(k, 0) == LengthOf(k)
  {
    hide Value, Length;
    Groups0To3(k);
    Groups4To7(k);
    Groups8To11(k);
    Groups12To15(k);
    Groups16To19(k);
  }

  /** A node is well formed when header and length are those of its kind. */
  lemma {:induction false} WellFormedBy(node: seq<Word>, k: Kind)
    requires node != [] && node[0] == HeaderOf(k) && |node| == LengthOf(k)
    ensures WellFormed(node)
  {
    hide Value, Length, GroupWords;
    KindHeader(k);
    LengthIs(k, node[0], 0);
  }

  /** Fill nodes have exactly the words their header announces, with and without a colour key. */
  lemma {:induction false} FillWellFormed(dst: Surface, r: Rect, blend: bool, color: Word, key: Option<Word>, rop: Word)
    requires dst.Valid()
    ensures WellFormed(FillNode(dst, r, blend, color, key, rop))
  {
    hide WellFormed, BufferWord, Pair12;
    WellFormedBy(FillNode(dst, r, blend, color, key, rop), Fill(key.Some?));
  }

  lemma {:induction false} DirectBlitWellFormed(dst: Surface, src: Surface, r: Rect, dx: int, dy: int)
    requires dst.Valid() && src.Valid()
    ensures WellFormed(DirectBlitNode(dst, src, r, dx, dy))
  {
    hide WellFormed, BufferWord, Pair12;
    WellFormedBy(DirectBlitNode(dst, src, r, dx, dy), Direct);
  }

  /** Blit nodes do in all eight combinations of mask, keys and rotation. */
  lemma {:induction false} BlitWellFormed(
    dst: Word, dstBuffer: Word, src: Word, srcBuffer: Word, outSize: Word, srcSize: Word,
    mask: Option<MaskWords>, keys: Option<KeyWords>, matrix: Option<seq<Word>>, rop: Word, color: Word)
    requires matrix.Some? ==> |matrix.value| == 7
    requires srcBuffer < 0x4000_0000
    ensures WellFormed(BlitNode(dst, dstBuffer, src, srcBuffer, outSize, srcSize, mask, keys, matrix, rop, color))
  {
    hide WellFormed;
    WellFormedBy(BlitNode(dst, dstBuffer, src, srcBuffer, outSize, srcSize, mask, keys, matrix, rop, color),
                 Blit(mask.Some?, keys.Some?, matrix.Some?));
  }

  lemma {:induction false} StretchWellFormed(
    dst: Word, dstBuffer: Word, src: Word, srcBuffer: Word, outSize: Word, srcSize: Word,
    mask: Option<MaskWords>, keys: Option<KeyWords>, matrix: seq<Word>, rop: Word, color: Word)
    requires |matrix| == 7 && srcBuffer < 0x4000_0000
    ensures WellFormed(StretchNode(dst, dstBuffer, src, srcBuffer, outSize, srcSize, mask, keys, matrix, rop, color))
  {
    hide WellFormed;
    WellFormedBy(StretchNode(dst, dstBuffer, src, srcBuffer, outSize, srcSize, mask, keys, matrix, rop, color),
                 Stretch(mask.Some?, keys.Some?));
  }

  // ----- which words belong to which group -----

  /** The words of a selected group of a well-formed node, as its header lays them out. */
  function GroupIn(node: seq<Word>, g: nat): (ws: seq<Word>)
    requires WellFormed(node) && g < GROUPS && Selected(node[0], g)
    ensures |ws| == LayoutOf(g).words
  {
    GroupInside(node[0], g);
    var start := |node| - GroupWords(node[0], g);
    node[start..start + LayoutOf(g).words]
  }

  lemma {:induction false} GroupInside(header: Word, g: nat)
    requires g < GROUPS && Selected(header, g)
    ensures LayoutOf(g).words <= GroupWords(header, g) < NodeWords(header)
  {
    hide Selected, LayoutOf;
    GroupWordsShrink(header, g);
  }

  lemma {:induction false} GroupWordsShrink(header: Word, g: nat)
    requires g <= GROUPS
    ensures GroupWords(header, g) <= GroupWords(header, 0)
  {
    hide Selected, LayoutOf;
    if g > 0 {
      GroupWordsShrink(header, g - 1);
    }
  }

  /** A group of a node of kind `k` starts where the words of the later groups leave off. */
  lemma {:induction false} GroupAt(node: seq<Word>, k: Kind, g: nat, start: nat)
    requires node != [] && node[0] == HeaderOf(k) && |node| == LengthOf(k)
    requires g < GROUPS && k.Has(g) && start + Length(k, g) == |node|
    ensures WellFormed(node) && Selected(node[0], g) && start + LayoutOf(g).words <= |node|
    ensures GroupIn(node, g) == node[start..start + LayoutOf(g).words]
  {
    hide Value, Length, Selected, Kind.Has, LayoutOf;
    WellFormedBy(node, k);
    KindHeader(k);
    SelectedIs(k, node[0], g);
    LengthIs(k, node[0], g);
  }

  /** Where the groups of each kind start, counted from the end of the node. */
  lemma {:induction false} Tails(k: Kind)
    ensures var key := if k.Fill? then N(k.key) else 0;
            k.Fill? ==> Length(k, 1) == 12 + 2 * key && Length(k, 5) == 8 + 2 * key && Length(k, 6) == 5 + 2 * key &&
                        Length(k, 8) == 4 && Length(k, 9) == 2 && Length(k, 15) == 1
    ensures k.Direct? ==> Length(k, 1) == 7 && Length(k, 2) == 5 && Length(k, 8) == 3 && Length(k, 9) == 1
    ensures var x := if k.Blit? then 1 + 7 * N(k.matrix) else 8;
            var m := if k.Blit? then 2 * N(k.mask) else 0;
            k.Blit? || k.Stretch? ==>
              && Length(k, 17) == x && Length(k, 15) == 1 + x && Length(k, 12) == 1 + x
              && Length(k, 18) == x - 1
              && Length(k, 11) == 1 + x + m && Length(k, 10) == 3 + x + m && Length(k, 9) == 4 + x + m
              && Length(k, 8) == 6 + x + m
  {
    hide Value, Length;
    Groups0To3(k); Groups4To7(k); Groups8To11(k); Groups12To15(k); Groups16To19(k);
    LengthStep(k, 0); LengthStep(k, 1); LengthStep(k, 4); LengthStep(k, 5);
    LengthStep(k, 8); LengthStep(k, 9); LengthStep(k, 10); LengthStep(k, 11);
    LengthStep(k, 15); LengthStep(k, 16); LengthStep(k, 17);
  }

  /** The node carries group `g` with these words. */
  predicate HasGroup(node: seq<Word>, g: nat, ws: seq<Word>)
    requires g < GROUPS
  {
    WellFormed(node) && Selected(node[0], g) && GroupIn(node, g) == ws
  }

  /** Where the first groups of every kind start, from the end. */
  lemma {:induction false} HeadTails(k: Kind)
    ensures Length(k, 0) + 1 == Length(k, 1) + 2 == Length(k, 2) + 4 == LengthOf(k)
    ensures k.Fill? && k.key ==> Length(k, 7) == 6
  {
    hide Value, Length, LengthOf;
    KindHeader(k);
    LengthStep(k, 0);
    LengthStep(k, 1);
    LengthStep(k, 7);
    Tails(k);
  }

  lemma {:induction false} FillFront(dst: Surface, r: Rect, blend: bool, color: Word, key: Option<Word>, rop: Word)
    requires dst.Valid()
    ensures var node := FillNode(dst, r, blend, color, key, rop);
            var surface := [dst.phys, BufferWord(dst.format.value, dst.pitch)];
            && HasGroup(node, 0, [if blend then 0x00a0_0301 else 0x00a0_0003])
            && HasGroup(node, 1, surface) && HasGroup(node, 2, surface)
            && HasGroup(node, 5, [color, 0, 0])
            && HasGroup(node, 6, [if blend then 1 else dst.format.value.Code()])
  {
    hide Length, GroupIn, Selected, WellFormed, BufferWord, Pair12;
    var k := Fill(key.Some?);
    var node := FillNode(dst, r, blend, color, key, rop);
    Tails(k);
    HeadTails(k);
    GroupAt(node, k, 0, 1);
    GroupAt(node, k, 1, 2);
    GroupAt(node, k, 2, 4);
    GroupAt(node, k, 5, 6);
    GroupAt(node, k, 6, 9);
    assert node[1..2] == [node[1]] && node[2..4] == [node[2], node[3]] && node[4..6] == [node[4], node[5]];
    assert node[6..9] == [color, 0, 0] && node[9..10] == [node[9]];
  }

  lemma {:induction false} FillBack(dst: Surface, r: Rect, blend: bool, color: Word, key: Option<Word>, rop: Word)
    requires dst.Valid()
    ensures var node := FillNode(dst, r, blend, color, key, rop);
            && (key.Some? ==> HasGroup(node, 7, [key.value, 0]))
            && HasGroup(node, 8, [Pair12(r.x, r.y), Pair12(r.w, r.h)])
            && HasGroup(node, 9, [Pair12(r.x, r.y)])
            && HasGroup(node, 15, [rop])
  {
    hide Length, GroupIn, Selected, WellFormed, BufferWord, Pair12;
    var k := Fill(key.Some?);
    var node := FillNode(dst, r, blend, color, key, rop);
    Tails(k);
    HeadTails(k);
    var n := |node|;
    if key.Some? {
      GroupAt(node, k, 7, 10);
      assert node[10..12] == [key.value, 0];
    }
    GroupAt(node, k, 8, n - 4);
    GroupAt(node, k, 9, n - 2);
    GroupAt(node, k, 15, n - 1);
    assert node[n - 4..n - 2] == [node[n - 4], node[n - 3]];
    assert node[n - 2..n - 1] == [node[n - 2]] && node[n - 1..] == [rop];
  }

  /** The fill node says: this colour, into this rectangle of this surface. */
  lemma {:induction false} FillGroups(dst: Surface, r: Rect, blend: bool, color: Word, key: Option<Word>, rop: Word)
    requires dst.Valid()
    ensures var node := FillNode(dst, r, blend, color, key, rop);
            var surface := [dst.phys, BufferWord(dst.format.value, dst.pitch)];
            && HasGroup(node, 0, [if blend then 0x00a0_0301 else 0x00a0_0003])
            && HasGroup(node, 1, surface) && HasGroup(node, 2, surface)
            && HasGroup(node, 5, [color, 0, 0])
            && HasGroup(node, 6, [if blend then 1 else dst.format.value.Code()])
            && (key.Some? ==> HasGroup(node, 7, [key.value, 0]))
            && HasGroup(node, 8, [Pair12(r.x, r.y), Pair12(r.w, r.h)])
            && HasGroup(node, 9, [Pair12(r.x, r.y)])
            && HasGroup(node, 15, [rop])
  {
    hide HasGroup, FillNode, Pair12, BufferWord;
    FillFront(dst, r, blend, color, key, rop);
    FillBack(dst, r, blend, color, key, rop);
  }

  /** The plain copy says: from this position of the source, this size, to that position. */
  lemma {:induction false} DirectBlitGroups(dst: Surface, src: Surface, r: Rect, dx: int, dy: int)
    requires dst.Valid() && src.Valid()
    ensures var node := DirectBlitNode(dst, src, r, dx, dy);
            && HasGroup(node, 0, [2])
            && HasGroup(node, 1, [dst.phys, BufferWord(dst.format.value, dst.pitch)])
            && HasGroup(node, 2, [src.phys, BufferWord(src.format.value, src.pitch)])
            && HasGroup(node, 8, [Pair12(dx, dy), Pair12(r.w, r.h)])
            && HasGroup(node, 9, [Pair12(r.x, r.y)])
  {
    hide Length, GroupIn, Selected, WellFormed, BufferWord, Pair12;
    var node := DirectBlitNode(dst, src, r, dx, dy);
    Tails(Direct);
    HeadTails(Direct);
    GroupAt(node, Direct, 0, 1);
    GroupAt(node, Direct, 1, 2);
    GroupAt(node, Direct, 2, 4);
    GroupAt(node, Direct, 8, 6);
    GroupAt(node, Direct, 9, 8);
    assert node[1..2] == [2] && node[2..4] == [node[2], node[3]] && node[4..6] == [node[4], node[5]];
    assert node[6..8] == [node[6], node[7]] && node[8..9] == [node[8]];
  }

  /** Where the source, mask and key groups of the compositor kinds start, from the end. */
  lemma {:induction false} CompositorTails(k: Kind)
    requires k.Blit? || k.Stretch?
    ensures Length(k, 3) + 6 == Length(k, 4) + 8 == LengthOf(k)
    ensures k.keys ==> Length(k, 7) == Length(k, 8) + 2
  {
    hide Value, Length;
    KindHeader(k);
    Groups0To3(k);
    LengthStep(k, 3);
    LengthStep(k, 7);
  }

  /** Group `g` of a node of kind `k` is what stands between `a` and `c`. */
  lemma {:induction false} GroupBetween(node: seq<Word>, k: Kind, g: nat, a: seq<Word>, ws: seq<Word>, c: seq<Word>)
    requires node == a + (ws + c) && a != [] && a[0] == HeaderOf(k) && |node| == LengthOf(k)
    requires g < GROUPS && k.Has(g) && |ws| == LayoutOf(g).words && |ws| + |c| == Length(k, g)
    ensures HasGroup(node, g, ws)
  {
    hide Length, GroupIn, Selected, WellFormed, LayoutOf, Kind.Has;
    GroupAt(node, k, g, |a|);
    assert node[|a|..|a| + |ws|] == ws;
  }

  /** The compositor nodes, cut behind the optional context words and before the raster operation. */
  lemma {:induction false} CompositorGroups(k: Kind, node: seq<Word>, front: seq<Word>, opt: seq<Word>, sizes: seq<Word>,
                                            position: seq<Word>, tail: seq<Word>)
    requires k.Blit? || k.Stretch?
    requires node == front + opt + sizes + position + tail && |node| == LengthOf(k)
    requires |front| == 8 && front[0] == HeaderOf(k) && |sizes| == 5
    requires |position| == (if k.Blit? then 2 * N(k.mask) else 0)
    requires |tail| == 2 + (if k.Blit? then 7 * N(k.matrix) else 7)
    ensures |opt| == 2 * N(k.mask) + 2 * N(k.keys)
    ensures HasGroup(node, 0, front[1..2]) && HasGroup(node, 1, front[2..4]) && HasGroup(node, 2, front[4..6])
    ensures HasGroup(node, 3, front[6..8])
    ensures k.mask ==> HasGroup(node, 4, opt[..2])
    ensures k.keys ==> HasGroup(node, 7, opt[|opt| - 2..])
    ensures HasGroup(node, 8, sizes[..2]) && HasGroup(node, 9, sizes[2..3]) && HasGroup(node, 10, sizes[3..])
    ensures k.Blit? && k.mask ==> HasGroup(node, 11, position)
    ensures HasGroup(node, 15, tail[..1]) && HasGroup(node, 17, tail[1..2])
    ensures k.Stretch? || k.matrix ==> HasGroup(node, 18, tail[2..])
  {
    hide Length, HasGroup;
    Tails(k);
    CompositorTails(k);
    CompositorHead(k, node, front, opt + sizes + position + tail);
    CompositorFront(k, node, front, opt, sizes + position + tail);
    CompositorSizes(k, node, front + opt, sizes, position, tail);
    CompositorEnd(k, node, front + opt + sizes + position, tail);
  }

  lemma {:induction false} CompositorHead(k: Kind, node: seq<Word>, front: seq<Word>, rest: seq<Word>)
    requires k.Blit? || k.Stretch?
    requires node == front + rest && |node| == LengthOf(k) && |front| == 8 && front[0] == HeaderOf(k)
    ensures HasGroup(node, 0, front[1..2]) && HasGroup(node, 1, front[2..4]) && HasGroup(node, 2, front[4..6])
  {
    hide Length, HasGroup, LengthOf, HeaderOf;
    HeadTails(k);
    assert node == front[..1] + (front[1..2] + (front[2..] + rest));
    GroupBetween(node, k, 0, front[..1], front[1..2], front[2..] + rest);
    assert node == front[..2] + (front[2..4] + (front[4..] + rest));
    GroupBetween(node, k, 1, front[..2], front[2..4], front[4..] + rest);
    assert node == front[..4] + (front[4..6] + (front[6..] + rest));
    GroupBetween(node, k, 2, front[..4], front[4..6], front[6..] + rest);
  }

  lemma {:induction false} CompositorFront(k: Kind, node: seq<Word>, front: seq<Word>, opt: seq<Word>, rest: seq<Word>)
    requires k.Blit? || k.Stretch?
    requires node == front + opt + rest && |node| == LengthOf(k)
    requires |front| == 8 && front[0] == HeaderOf(k) && |opt| == 2 * N(k.mask) + 2 * N(k.keys)
    ensures HasGroup(node, 3, front[6..8])
    ensures k.mask ==> HasGroup(node, 4, opt[..2])
    ensures k.keys ==> HasGroup(node, 7, opt[|opt| - 2..])
  {
    hide Length, HasGroup, LengthOf, HeaderOf;
    var lengths := FrontLengths(k);
    assert node == front[..6] + (front[6..8] + (opt + rest));
    GroupBetween(node, k, 3, front[..6], front[6..8], opt + rest);
    if k.mask {
      assert node == front + (opt[..2] + (opt[2..] + rest));
      GroupBetween(node, k, 4, front, opt[..2], opt[2..] + rest);
    }
    if k.keys {
      CompositorKeys(k, node, front, opt, rest);
    }
  }

  lemma {:induction false} FrontLengths(k: Kind) returns (n: nat)
    requires k.Blit? || k.Stretch?
    ensures n == LengthOf(k) && Length(k, 3) + 6 == Length(k, 4) + 8 == n
    ensures Length(k, 8) + 8 + 2 * N(k.mask) + 2 * N(k.keys) == n
    ensures k.keys ==> Length(k, 7) == Length(k, 8) + 2
  {
    hide Length, Value;
    n := LengthOf(k);
    CompositorTails(k);
    Groups4To7(k);
  }

  lemma {:induction false} CompositorKeys(k: Kind, node: seq<Word>, front: seq<Word>, opt: seq<Word>, rest: seq<Word>)
    requires (k.Blit? || k.Stretch?) && k.keys
    requires node == front + opt + rest && |node| == LengthOf(k)
    requires |front| == 8 && front[0] == HeaderOf(k) && |opt| == 2 * N(k.mask) + 2
    ensures HasGroup(node, 7, opt[|opt| - 2..])
  {
    hide Length, HasGroup, LengthOf, HeaderOf;
    var lengths := FrontLengths(k);
    var n := |opt| - 2;
    assert node == (front + opt[..n]) + (opt[n..] + rest);
    GroupBetween(node, k, 7, front + opt[..n], opt[n..], rest);
  }

  lemma {:induction false} CompositorSizes(k: Kind, node: seq<Word>, front: seq<Word>, sizes: seq<Word>,
                                           position: seq<Word>, tail: seq<Word>)
    requires k.Blit? || k.Stretch?
    requires node == front + sizes + position + tail && |node| == LengthOf(k)
    requires front != [] && front[0] == HeaderOf(k) && |sizes| == 5
    requires |position| == (if k.Blit? then 2 * N(k.mask) else 0)
    requires |tail| == 2 + (if k.Blit? then 7 * N(k.matrix) else 7)
    ensures HasGroup(node, 8, sizes[..2]) && HasGroup(node, 9, sizes[2..3]) && HasGroup(node, 10, sizes[3..])
    ensures k.Blit? && k.mask ==> HasGroup(node, 11, position)
  {
    hide Length, HasGroup;
    Tails(k);
    assert node == front + (sizes[..2] + (sizes[2..] + position + tail));
    GroupBetween(node, k, 8, front, sizes[..2], sizes[2..] + position + tail);
    assert node == (front + sizes[..2]) + (sizes[2..3] + (sizes[3..] + position + tail));
    GroupBetween(node, k, 9, front + sizes[..2], sizes[2..3], sizes[3..] + position + tail);
    assert node == (front + sizes[..3]) + (sizes[3..] + (position + tail));
    GroupBetween(node, k, 10, front + sizes[..3], sizes[3..], position + tail);
    if k.Blit? && k.mask {
      assert node == (front + sizes) + (position + tail);
      GroupBetween(node, k, 11, front + sizes, position, tail);
    }
  }

  lemma {:induction false} CompositorEnd(k: Kind, node: seq<Word>, front: seq<Word>, tail: seq<Word>)
    requires k.Blit? || k.Stretch?
    requires node == front + tail && |node| == LengthOf(k) && front != [] && front[0] == HeaderOf(k)
    requires |tail| == 2 + (if k.Blit? then 7 * N(k.matrix) else 7)
    ensures HasGroup(node, 15, tail[..1]) && HasGroup(node, 17, tail[1..2])
    ensures k.Stretch? || k.matrix ==> HasGroup(node, 18, tail[2..])
  {
    hide Length, HasGroup;
    Tails(k);
    assert node == front + (tail[..1] + tail[1..]);
    GroupBetween(node, k, 15, front, tail[..1], tail[1..]);
    assert node == (front + tail[..1]) + (tail[1..2] + tail[2..]);
    GroupBetween(node, k, 17, front + tail[..1], tail[1..2], tail[2..]);
    if k.Stretch? || k.matrix {
      assert node == (front + tail[..2]) + (tail[2..] + []);
      GroupBetween(node, k, 18, front + tail[..2], tail[2..], []);
    }
  }

  /** The blit node says: this size of that source, through mask and keys, to this place. */
  lemma {:induction false} BlitGroups(
    dst: Word, dstBuffer: Word, src: Word, srcBuffer: Word, outSize: Word, srcSize: Word,
    mask: Option<MaskWords>, keys: Option<KeyWords>, matrix: Option<seq<Word>>, rop: Word, color: Word)
    requires matrix.Some? ==> |matrix.value| == 7
    requires srcBuffer < 0x4000_0000
    ensures var node := BlitNode(dst, dstBuffer, src, srcBuffer, outSize, srcSize, mask, keys, matrix, rop, color);
            && HasGroup(node, 0, [0x00a0_0009 + (if matrix.Some? then 0x3000 else 0) + (if mask.Some? then 0x40 else 0)])
            && HasGroup(node, 1, [dst, dstBuffer]) && HasGroup(node, 2, [dst, dstBuffer])
            && HasGroup(node, 3, [src, (if matrix.Some? then 0x4000_0000 else 0) + srcBuffer])
            && (mask.Some? ==> HasGroup(node, 4, [mask.value.phys, mask.value.buffer]) &&
                               HasGroup(node, 11, [mask.value.position, mask.value.margin]))
            && (keys.Some? ==> HasGroup(node, 7, [keys.value.dst, keys.value.src]))
            && HasGroup(node, 8, [0, outSize]) && HasGroup(node, 9, [0]) && HasGroup(node, 10, [0, srcSize])
            && HasGroup(node, 15, [rop]) && HasGroup(node, 17, [color])
            && (matrix.Some? ==> HasGroup(node, 18, matrix.value))
  {
    hide HasGroup, MaskContext, MaskPosition, ColorKeys, Matrix, WellFormed;
    var k := Blit(mask.Some?, keys.Some?, matrix.Some?);
    var front := [HeaderOf(k), 0x00a0_0009 + (if matrix.Some? then 0x3000 else 0) + (if mask.Some? then 0x40 else 0),
                  dst, dstBuffer, dst, dstBuffer, src, (if matrix.Some? then 0x4000_0000 else 0) + srcBuffer];
    var opt, tail := MaskContext(mask) + ColorKeys(keys), [rop, color] + Matrix(matrix);
    var sizes := [0, outSize, 0, 0, srcSize];
    Parts(mask, keys, matrix);
    CompositorGroups(k, BlitNode(dst, dstBuffer, src, srcBuffer, outSize, srcSize, mask, keys, matrix, rop, color),
                     front, opt, sizes, MaskPosition(mask), tail);
    FrontParts(front);
    SizeParts(outSize, srcSize);
    assert tail[..1] == [rop] && tail[1..2] == [color] && tail[2..] == Matrix(matrix);
    if mask.Some? {
      assert opt[..2] == MaskContext(mask);
    }
    if keys.Some? {
      assert opt[|opt| - 2..] == ColorKeys(keys);
    }
  }

  lemma {:induction false} FrontParts(front: seq<Word>)
    requires |front| == 8
    ensures front[1..2] == [front[1]] && front[2..4] == [front[2], front[3]]
    ensures front[4..6] == [front[4], front[5]] && front[6..8] == [front[6], front[7]]
  {
  }

  lemma {:induction false} SizeParts(outSize: Word, srcSize: Word)
    ensures var sizes := [0, outSize, 0, 0, srcSize];
            sizes[..2] == [0, outSize] && sizes[2..3] == [0] && sizes[3..] == [0, srcSize]
  {
  }

  lemma {:induction false} Parts(mask: Option<MaskWords>, keys: Option<KeyWords>, matrix: Option<seq<Word>>)
    ensures mask.Some? ==> MaskContext(mask) == [mask.value.phys, mask.value.buffer] &&
                           MaskPosition(mask) == [mask.value.position, mask.value.margin]
    ensures keys.Some? ==> ColorKeys(keys) == [keys.value.dst, keys.value.src]
    ensures matrix.Some? ==> Matrix(matrix) == matrix.value
    ensures matrix.None? ==> Matrix(matrix) == []
  {
  }

  lemma {:induction false} StretchGroups(
    dst: Word, dstBuffer: Word, src: Word, srcBuffer: Word, outSize: Word, srcSize: Word,
    mask: Option<MaskWords>, keys: Option<KeyWords>, matrix: seq<Word>, rop: Word, color: Word)
    requires |matrix| == 7 && srcBuffer < 0x4000_0000
    ensures var node := StretchNode(dst, dstBuffer, src, srcBuffer, outSize, srcSize, mask, keys, matrix, rop, color);
            && HasGroup(node, 0, [0x00a0_3009 + (if mask.Some? then 0x40 else 0)])
            && HasGroup(node, 1, [dst, dstBuffer]) && HasGroup(node, 2, [dst, dstBuffer])
            && HasGroup(node, 3, [src, 0x4000_0000 + srcBuffer])
            && (mask.Some? ==> HasGroup(node, 4, [mask.value.phys, mask.value.buffer]))
            && (keys.Some? ==> HasGroup(node, 7, [keys.value.dst, keys.value.src]))
            && HasGroup(node, 8, [0, outSize]) && HasGroup(node, 9, [0]) && HasGroup(node, 10, [0, srcSize])
            && HasGroup(node, 15, [rop]) && HasGroup(node, 17, [color]) && HasGroup(node, 18, matrix)
  {
    hide HasGroup, MaskContext, ColorKeys, WellFormed;
    var k := Stretch(mask.Some?, keys.Some?);
    var front := [HeaderOf(k), 0x00a0_3009 + (if mask.Some? then 0x40 else 0),
                  dst, dstBuffer, dst, dstBuffer, src, 0x4000_0000 + srcBuffer];
    var opt, tail := MaskContext(mask) + ColorKeys(keys), [rop, color] + matrix;
    var sizes := [0, outSize, 0, 0, srcSize];
    Parts(mask, keys, None);
    CompositorGroups(k, StretchNode(dst, dstBuffer, src, srcBuffer, outSize, srcSize, mask, keys, matrix, rop, color),
                     front, opt, sizes, [], tail);
    FrontParts(front);
    SizeParts(outSize, srcSize);
    assert tail[..1] == [rop] && tail[1..2] == [color] && tail[2..] == matrix;
    if mask.Some? {
      assert opt[..2] == MaskContext(mask);
    }
    if keys.Some? {
      assert opt[|opt| - 2..] == ColorKeys(keys);
    }
  }
}
