/** Rectangle outlines, ge/hcge_linux.c: `hcge_draw_rect` issues one fill per edge. */
module GeDraw {
  import opened Options
  import opened CArithmetic
  import opened GeNode
  import opened GeBuild
  import opened GeBatch

  // ----- what a fill node makes the engine paint -----

  /** A fill as the engine reads it from the node: where, in what lines, and which pixels. */
  datatype Command = Command(base: int, linePixels: int, pixelBytes: int, rect: Rect)
  {
    function PixelAddress(px: int, py: int): int {
      base + (py * linePixels + px) * pixelBytes
    }
  }

  /** Bytes per pixel of a hardware format code. */
  function CodeBytes(code: int): int {
    if code <= 1 then 4 else 2
  }

  predicate IsFill(node: seq<Word>) {
    WellFormed(node) && Selected(node[0], 1) && Selected(node[0], 8)
  }

  function Decode(node: seq<Word>): Command
    requires IsFill(node)
  {
    var surface, place := GroupIn(node, 1), GroupIn(node, 8);
    Command(surface[0], Low12(surface[1]), CodeBytes(surface[1] / 0x1000 % 0x20),
            Rect(Low12(place[0]), High12(place[0]), Low12(place[1]), High12(place[1])))
  }

  /** Drawing state that decides the remaining words of a fill. */
  datatype Paint = Paint(blend: bool, color: Word, key: Option<Word>, rop: Word)

  function NodeFor(dst: Surface, r: Rect, paint: Paint): seq<Word>
    requires dst.Valid()
  {
    FillNode(dst, r, paint.blend, paint.color, paint.key, paint.rop)
  }

  /** No field of the fill of a rectangle inside the surface is truncated. */
  lemma {:induction false} FillDecodes(dst: Surface, r: Rect, paint: Paint)
    requires dst.Valid() && dst.Holds(r)
    ensures IsFill(NodeFor(dst, r, paint))
    ensures var c := Decode(NodeFor(dst, r, paint));
            && c.rect == r && c.base == dst.phys && c.pixelBytes == dst.format.value.Bytes()
            && c.linePixels * c.pixelBytes == dst.pitch
  {
    hide FillNode, WellFormed, Selected, GroupIn, BufferWord, Pair12, Low12, High12;
    FillGroups(dst, r, paint.blend, paint.color, paint.key, paint.rop);
    BufferWordKeepsPitch(dst);
    Pair12RoundTrip(r.x, r.y);
    Pair12RoundTrip(r.w, r.h);
    CodeGivesBytes(dst.format.value);
  }

  lemma {:induction false} CodeGivesBytes(f: Format)
    ensures CodeBytes(f.Code()) == f.Bytes()
  {
  }

  /** The pixels a fill paints lie in the memory of the surface. */
  lemma {:induction false} PaintsInside(dst: Surface, r: Rect, paint: Paint, px: int, py: int)
    requires dst.Valid() && dst.Holds(r) && r.Contains(px, py)
    ensures IsFill(NodeFor(dst, r, paint))
    ensures var c := Decode(NodeFor(dst, r, paint));
            && c.PixelAddress(px, py) == dst.PixelAddress(px, py)
            && dst.phys <= c.PixelAddress(px, py)
            && c.PixelAddress(px, py) + c.pixelBytes <= dst.phys + dst.pitch * dst.h
  {
    hide NodeFor, Decode, IsFill;
    FillDecodes(dst, r, paint);
    var c := Decode(NodeFor(dst, r, paint));
    PixelInside(c.linePixels, c.pixelBytes, dst.pitch, dst.w, dst.h, px, py);
  }

  lemma {:induction false} PixelInside(line: int, bytes: int, pitch: int, w: int, h: int, px: int, py: int)
    requires line * bytes == pitch && 0 < bytes && w * bytes <= pitch
    requires 0 <= px < w && 0 <= py < h
    ensures (py * line + px) * bytes == py * pitch + px * bytes >= 0
    ensures py * pitch + px * bytes + bytes <= pitch * h
  {
    assert (py * line + px) * bytes == py * (line * bytes) + px * bytes;
    MulBound(0, px, bytes);
    MulBound(0, w, bytes);
    MulBound(0, py, pitch);
    MulBound(px + 1, w, bytes);
    MulBound(py + 1, h, pitch);
  }

  lemma {:induction false} MulBound(a: int, b: int, k: int)
    requires a <= b && 0 <= k
    ensures a * k <= b * k
  {
  }

  // ----- the edges -----

  /** The rectangles `hcge_draw_rect` fills, in order. */
  function Edges(r: Rect): seq<Rect> {
    [Rect(r.x, r.y, r.w, 1)]
    + (if r.h > 1 then [Rect(r.x, r.y + r.h - 1, r.w, 1)] else [])
    + (if r.h > 2 then [Rect(r.x, r.y + 1, 1, r.h - 2)] else [])
    + (if r.h > 2 && r.w > 1 then [Rect(r.x + r.w - 1, r.y + 1, 1, r.h - 2)] else [])
  }

  function Nodes(dst: Surface, rs: seq<Rect>, paint: Paint): (ns: seq<seq<Word>>)
    requires dst.Valid()
    ensures |ns| == |rs| && forall i | 0 <= i < |rs| :: ns[i] == NodeFor(dst, rs[i], paint)
  {
    seq(|rs|, i requires 0 <= i < |rs| => NodeFor(dst, rs[i], paint))
  }

  predicate OnPerimeter(r: Rect, px: int, py: int) {
    r.Contains(px, py) && (px == r.x || px == r.x + r.w - 1 || py == r.y || py == r.y + r.h - 1)
  }

  /** How many of the fills paint a pixel. */
  function TimesPainted(nodes: seq<seq<Word>>, px: int, py: int): nat
    requires forall i | 0 <= i < |nodes| :: IsFill(nodes[i])
  {
    if nodes == [] then 0
    else TimesPainted(nodes[..|nodes| - 1], px, py) + N(Decode(nodes[|nodes| - 1]).rect.Contains(px, py))
  }

  function TimesCovered(rs: seq<Rect>, px: int, py: int): nat {
    if rs == [] then 0 else TimesCovered(rs[..|rs| - 1], px, py) + N(rs[|rs| - 1].Contains(px, py))
  }

  lemma {:induction false} PaintedIsCovered(dst: Surface, rs: seq<Rect>, paint: Paint, px: int, py: int)
    requires dst.Valid() && forall i | 0 <= i < |rs| :: dst.Holds(rs[i])
    ensures forall i | 0 <= i < |rs| :: IsFill(Nodes(dst, rs, paint)[i])
    ensures TimesPainted(Nodes(dst, rs, paint), px, py) == TimesCovered(rs, px, py)
  {
    hide NodeFor, Decode, IsFill, Surface.Holds;
    var ns := Nodes(dst, rs, paint);
    forall i | 0 <= i < |rs| ensures IsFill(ns[i]) {
      FillDecodes(dst, rs[i], paint);
    }
    if rs != [] {
      var k := |rs| - 1;
      PaintedIsCovered(dst, rs[..k], paint, px, py);
      assert ns[..k] == Nodes(dst, rs[..k], paint);
      FillDecodes(dst, rs[k], paint);
    }
  }

  lemma {:induction false} CoveredAppend(rs: seq<Rect>, r: Rect, px: int, py: int)
    ensures TimesCovered(rs + [r], px, py) == TimesCovered(rs, px, py) + N(r.Contains(px, py))
  {
    assert (rs + [r])[..|rs|] == rs;
  }

  /** The edges tile the outline: every perimeter pixel once, every other pixel never. */
  lemma {:induction false} EdgesTilePerimeter(r: Rect, px: int, py: int)
    requires r.w >= 1 && r.h >= 1
    ensures TimesCovered(Edges(r), px, py) == N(OnPerimeter(r, px, py))
  {
    hide TimesCovered;
    var top := [Rect(r.x, r.y, r.w, 1)];
    var two := if r.h > 1 then top + [Rect(r.x, r.y + r.h - 1, r.w, 1)] else top;
    var three := if r.h > 2 then two + [Rect(r.x, r.y + 1, 1, r.h - 2)] else two;
    CoveredNone(px, py);
    CoveredAppend([], top[0], px, py);
    assert [] + [top[0]] == top;
    CoveredAppend(top, Rect(r.x, r.y + r.h - 1, r.w, 1), px, py);
    CoveredAppend(two, Rect(r.x, r.y + 1, 1, r.h - 2), px, py);
    CoveredAppend(three, Rect(r.x + r.w - 1, r.y + 1, 1, r.h - 2), px, py);
    assert Edges(r) == if r.h > 2 && r.w > 1 then three + [Rect(r.x + r.w - 1, r.y + 1, 1, r.h - 2)] else three;
  }

  lemma {:induction false} CoveredNone(px: int, py: int)
    ensures TimesCovered([], px, py) == 0
  {
  }

  /** All edges are inside the surface exactly when the rectangle is. */
  lemma {:induction false} EdgesHeldIff(dst: Surface, r: Rect)
    requires dst.Valid() && r.Valid()
    ensures (forall i | 0 <= i < |Edges(r)| :: dst.Holds(Edges(r)[i])) <==> dst.Holds(r)
  {
    var es := Edges(r);
    assert dst.Holds(es[0]) ==> r.x + r.w <= dst.w;
    if r.h > 1 {
      assert dst.Holds(es[1]) ==> r.y + r.h <= dst.h;
    }
  }

  /**
   The nodes of a whole outline paint every perimeter pixel exactly once and nothing else, and
   every byte they touch belongs to the surface.
   */
  lemma {:induction false} OutlineIsExact(dst: Surface, r: Rect, paint: Paint, px: int, py: int)
    requires dst.Valid() && dst.Holds(r)
    ensures var ns := Nodes(dst, Edges(r), paint);
            && (forall i | 0 <= i < |ns| :: IsFill(ns[i]))
            && TimesPainted(ns, px, py) == N(OnPerimeter(r, px, py))
            && forall i | 0 <= i < |ns| :: var c := Decode(ns[i]);
                 c.rect.Contains(px, py) ==>
                   c.PixelAddress(px, py) == dst.PixelAddress(px, py) &&
                   dst.phys <= c.PixelAddress(px, py) &&
                   c.PixelAddress(px, py) + c.pixelBytes <= dst.phys + dst.pitch * dst.h
  {
    hide NodeFor, Decode, IsFill, TimesCovered, TimesPainted, Edges, OnPerimeter, Surface.Holds;
    var es := Edges(r);
    HeldIsValid(dst, r);
    EdgesHeldIff(dst, r);
    PaintedIsCovered(dst, es, paint, px, py);
    EdgesTilePerimeter(r, px, py);
    forall i | 0 <= i < |es| && Decode(Nodes(dst, es, paint)[i]).rect.Contains(px, py)
      ensures var c := Decode(Nodes(dst, es, paint)[i]);
              c.PixelAddress(px, py) == dst.PixelAddress(px, py) &&
              dst.phys <= c.PixelAddress(px, py) &&
              c.PixelAddress(px, py) + c.pixelBytes <= dst.phys + dst.pitch * dst.h
    {
      FillDecodes(dst, es[i], paint);
      PaintsInside(dst, es[i], paint, px, py);
    }
  }

  lemma {:induction false} HeldIsValid(dst: Surface, r: Rect)
    requires dst.Holds(r)
    ensures r.Valid() && r.w >= 1 && r.h >= 1
  {
  }

  // ----- the code -----

  datatype Accel = FillRectangle | Other

  predicate All(taken: seq<bool>) {
    forall i | 0 <= i < |taken| :: taken[i]
  }

  /** The nodes of the edges that were filled, in order. */
  ghost function TakenWords(dst: Surface, rs: seq<Rect>, paint: Paint, taken: seq<bool>): seq<Word>
    requires |taken| <= |rs|
  {
    if taken == [] then []
    else
      var k := |taken| - 1;
      TakenWords(dst, rs, paint, taken[..k]) + (if taken[k] && dst.Valid() then NodeFor(dst, rs[k], paint) else [])
  }

  lemma {:induction false} TakenStep(dst: Surface, rs: seq<Rect>, paint: Paint, taken: seq<bool>, b: bool)
    requires |taken| < |rs| && (b ==> dst.Valid())
    ensures TakenWords(dst, rs, paint, taken + [b]) ==
            TakenWords(dst, rs, paint, taken) + (if b then NodeFor(dst, rs[|taken|], paint) else [])
  {
    hide Surface.Valid;
    assert (taken + [b])[..|taken|] == taken;
  }

  lemma {:induction false} AllFilled(dst: Surface, rs: seq<Rect>, paint: Paint, taken: seq<bool>)
    requires dst.Valid() && |taken| == |rs| && forall i | 0 <= i < |taken| :: taken[i]
    ensures TakenWords(dst, rs, paint, taken) == Concat(Nodes(dst, rs, paint))
  {
    hide Surface.Valid, NodeFor;
    AllFilledUpTo(dst, rs, paint, taken);
    assert Nodes(dst, rs, paint)[..|taken|] == Nodes(dst, rs, paint);
  }

  lemma {:induction false} AllFilledUpTo(dst: Surface, rs: seq<Rect>, paint: Paint, taken: seq<bool>)
    requires dst.Valid() && |taken| <= |rs| && forall i | 0 <= i < |taken| :: taken[i]
    ensures TakenWords(dst, rs, paint, taken) == Concat(Nodes(dst, rs, paint)[..|taken|])
  {
    hide Surface.Valid, NodeFor;
    if taken != [] {
      var k, ns := |taken| - 1, Nodes(dst, rs, paint);
      AllFilledUpTo(dst, rs, paint, taken[..k]);
      ConcatAppend(ns[..k], ns[k]);
      assert ns[..k] + [ns[k]] == ns[..k + 1];
    }
  }

  /** What decides about a fill outside a batch. */
  datatype Rules = Rules(dst: Surface, paint: Paint, supported: bool, open: bool, queueWords: nat)
  {
    predicate Fills(r: Rect, io: Io) {
      && supported && dst.Valid() && dst.Holds(r) && open
      && |NodeFor(dst, r, paint)| <= queueWords && io.Accepts()
    }
  }

  /** Which of the first edges were filled: outside a batch exactly those that pass the rules. */
  predicate Attempted(rules: Rules, r: Rect, ios: seq<Io>, batched: bool, taken: seq<bool>) {
    && |ios| == 4 && |taken| <= |Edges(r)|
    && (forall i | 0 <= i < |taken| :: taken[i] ==> rules.dst.Valid() && rules.dst.Holds(Edges(r)[i]))
    && (!batched ==> forall i | 0 <= i < |taken| :: taken[i] <==> rules.Fills(Edges(r)[i], ios[i]))
  }

  lemma {:induction false} AttemptNext(rules: Rules, r: Rect, ios: seq<Io>, batched: bool, taken: seq<bool>, ok: bool)
    requires Attempted(rules, r, ios, batched, taken) && |taken| < |Edges(r)|
    requires ok ==> rules.dst.Valid() && rules.dst.Holds(Edges(r)[|taken|])
    requires !batched ==> (ok <==> rules.Fills(Edges(r)[|taken|], ios[|taken|]))
    ensures Attempted(rules, r, ios, batched, taken + [ok]) && All(taken + [ok]) == (ok && All(taken))
  {
    hide Surface.Valid, Surface.Holds, Rules.Fills, Edges;
    var now := taken + [ok];
    assert forall i | 0 <= i < |taken| :: now[i] == taken[i];
    assert now[|taken|] == ok;
  }

  lemma {:induction false} AttemptNone(rules: Rules, r: Rect, ios: seq<Io>, batched: bool)
    requires |ios| == 4
    ensures Attempted(rules, r, ios, batched, [])
  {
    hide Edges;
  }

  lemma {:induction false} AllHeld(rules: Rules, r: Rect, ios: seq<Io>, batched: bool, taken: seq<bool>)
    requires Attempted(rules, r, ios, batched, taken) && |taken| == |Edges(r)| && All(taken) && r.Valid()
    ensures rules.dst.Valid() && rules.dst.Holds(r)
  {
    hide Surface.Valid, Surface.Holds, Rules.Fills;
    assert taken[0];
    EdgesHeldIff(rules.dst, r);
  }

  /** The engine context together with its drawing state. */
  class Painter {
    const ctx: Context
    var dst: Surface
    var accel: Accel
    var paint: Paint
    /** The drawing flags and blend functions are ones the engine supports. */
    var effectsSupported: bool

    constructor (ctx: Context, dst: Surface, accel: Accel, paint: Paint, effectsSupported: bool)
      ensures this.ctx == ctx && this.dst == dst && this.accel == accel && this.paint == paint
      ensures this.effectsSupported == effectsSupported
    {
      this.ctx, this.dst, this.accel, this.paint, this.effectsSupported := ctx, dst, accel, paint, effectsSupported;
    }

    /** The fill passes every check, and the batch or the device takes it. */
    ghost predicate Fills(r: Rect, io: Io)
      requires ctx.Ready()
      reads this, ctx.Footprint()
    {
      && accel == FillRectangle && effectsSupported && dst.Valid() && dst.Holds(r)
      && ctx.Takes(NodeFor(dst, r, paint), io)
    }

    /** `hcge_fill_rect`. */
    method FillRect(r: Rect, io: Io) returns (ok: bool)
      requires ctx.Ready()
      modifies ctx.Footprint()
      ensures ctx.Ready() && ctx.batch == old(ctx.batch) && ctx.Footprint() == old(ctx.Footprint())
      ensures ok <==> old(Fills(r, io))
      ensures ctx.Sent() == if ok then old(ctx.Sent()) + NodeFor(dst, r, paint) else old(ctx.Sent())
    {
      if accel != FillRectangle || !effectsSupported || !dst.Holds(r) || !dst.Valid() {
        return false;
      }
      var ret := ctx.Submit(NodeFor(dst, r, paint), io);
      return ret == 0;
    }

    function Setting(): Rules
      reads this
    {
      Rules(dst, paint, effectsSupported, ctx.open, ctx.queueWords)
    }

    /** One fill of the outline: records whether the edge was taken. */
    method FillEdge(r: Rect, edge: Rect, ios: seq<Io>, io: Io, ghost taken: seq<bool>, ghost start: seq<Word>)
      returns (ok: bool, ghost now: seq<bool>)
      requires ctx.Ready() && accel == FillRectangle
      requires Attempted(Setting(), r, ios, ctx.batch != null, taken)
      requires |taken| < |Edges(r)| && edge == Edges(r)[|taken|] && io == ios[|taken|]
      requires ctx.Sent() == start + TakenWords(dst, Edges(r), paint, taken)
      modifies ctx.Footprint()
      ensures ctx.Ready() && ctx.batch == old(ctx.batch) && ctx.Footprint() == old(ctx.Footprint())
      ensures now == taken + [ok] && All(now) == (ok && All(taken))
      ensures Attempted(Setting(), r, ios, ctx.batch != null, now)
      ensures ctx.Sent() == start + TakenWords(dst, Edges(r), paint, now)
    {
      hide Surface.Valid, Surface.Holds, TakenWords, NodeFor, Edges, Context.Sent, Attempted, Rules.Fills;
      FillsByRules(edge, io);
      ok := FillRect(edge, io);
      now := taken + [ok];
      AttemptNext(Setting(), r, ios, ctx.batch != null, taken, ok);
      TakenStep(dst, Edges(r), paint, taken, ok);
    }

    lemma {:induction false} FillsByRules(r: Rect, io: Io)
      requires ctx.Ready() && accel == FillRectangle
      ensures ctx.batch == null ==> (Fills(r, io) <==> Setting().Fills(r, io))
    {
      hide Surface.Holds;
    }

    /**
     `hcge_draw_rect`; `ios` are the device's answers to the fills. The edges in `taken` were
     filled, in order and nothing else; the call succeeds exactly when all of them were, and then
     the rectangle is inside the surface.
     */
    method DrawRect(r: Rect, ios: seq<Io>) returns (ok: bool, ghost taken: seq<bool>)
      requires ctx.Ready() && |ios| == 4
      modifies this`accel, ctx.Footprint()
      ensures ctx.Ready() && ctx.batch == old(ctx.batch) && accel == old(accel)
      ensures ok ==> r.Valid()
      ensures |taken| == if r.Valid() then |Edges(r)| else 0
      ensures r.Valid() ==> (ok <==> All(taken))
      ensures Attempted(Setting(), r, ios, ctx.batch != null, taken)
      ensures ctx.Sent() == old(ctx.Sent()) + TakenWords(dst, Edges(r), paint, taken)
      ensures ok ==> dst.Valid() && dst.Holds(r) &&
                     ctx.Sent() == old(ctx.Sent()) + Concat(Nodes(dst, Edges(r), paint))
    {
      hide Surface.Valid, Surface.Holds, TakenWords, NodeFor, Context.Sent, Context.Takes, Attempted, All;
      taken := [];
      ghost var start := ctx.Sent();
      TakenNone(dst, r, paint);
      AttemptNone(Setting(), r, ios, ctx.batch != null);
      if !r.Valid() {
        return false, [];
      }
      var saved := accel;
      accel := FillRectangle;
      var edge := r.(h := 1);
      var done;
      AllOfNone();
      ok, taken := FillEdge(r, edge, ios, ios[0], taken, start);
      if r.h > 1 {
        edge := edge.(y := r.y + r.h - 1);
        done, taken := FillEdge(r, edge, ios, ios[1], taken, start);
        ok := done && ok;
      }
      if r.h > 2 {
        edge := Rect(r.x, r.y + 1, 1, r.h - 2);
        done, taken := FillEdge(r, edge, ios, ios[2], taken, start);
        ok := done && ok;
        if r.w > 1 {
          edge := edge.(x := r.x + r.w - 1);
          done, taken := FillEdge(r, edge, ios, ios[3], taken, start);
          ok := done && ok;
        }
      }
      accel := saved;
      if ok {
        AllHeld(Setting(), r, ios, ctx.batch != null, taken);
        AllTaken(dst, Edges(r), paint, taken);
      }
    }
  }

  lemma {:induction false} AllOfNone()
    ensures All([])
  {
  }

  lemma {:induction false} AllTaken(dst: Surface, rs: seq<Rect>, paint: Paint, taken: seq<bool>)
    requires dst.Valid() && |taken| == |rs| && All(taken)
    ensures TakenWords(dst, rs, paint, taken) == Concat(Nodes(dst, rs, paint))
  {
    AllFilled(dst, rs, paint, taken);
  }

  lemma {:induction false} TakenNone(dst: Surface, r: Rect, paint: Paint)
    ensures TakenWords(dst, Edges(r), paint, []) == []
  {
  }
}
