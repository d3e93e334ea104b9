/**
 Command nodes of the graphics engine, ge/hcge_node.c: a header word whose low twenty bits
 select groups of words, optionally preceded by high-address records.
 */
module GeNode {
  import opened Options
  import opened CArithmetic

  type Word = w: int | 0 <= w < U32

  const CONTEXT_WORDS := 170
  const MAX_WORDS := 172
  const GROUPS := 20
  const HEADER_FLAG := 0x0200_0000

  /** First context word, number of words, and where the second word is taken from if not next. */
  datatype Layout = Layout(contextWord: nat, words: nat, second: nat)

  /** `group_layouts`. */
  function LayoutOf(g: nat): Layout {
    match g
    case 0 => Layout(1, 1, 0)
    case 1 => Layout(2, 2, 4)
    case 2 => Layout(7, 2, 9)
    case 3 => Layout(11, 2, 13)
    case 4 => Layout(16, 2, 18)
    case 5 => Layout(28, 3, 0)
    case 6 => Layout(33, 1, 0)
    case 7 => Layout(26, 2, 0)
    case 8 => Layout(5, 2, 0)
    case 9 => Layout(10, 1, 0)
    case 10 => Layout(14, 2, 0)
    case 11 => Layout(19, 2, 0)
    case 12 => Layout(0, 0, 0)
    case 13 => Layout(21, 2, 0)
    case 14 => Layout(23, 2, 0)
    case 15 => Layout(25, 1, 0)
    case 16 => Layout(0, 0, 0)
    case 17 => Layout(34, 1, 0)
    case 18 => Layout(35, 7, 0)
    case _ => Layout(42, 128, 0)
  }

  /** `1u << group`. */
  function Bit(g: nat): (b: int)
    ensures b > 0
  {
    match g
    case 0 => 0x1
    case 1 => 0x2
    case 2 => 0x4
    case 3 => 0x8
    case 4 => 0x10
    case 5 => 0x20
    case 6 => 0x40
    case 7 => 0x80
    case 8 => 0x100
    case 9 => 0x200
    case 10 => 0x400
    case 11 => 0x800
    case 12 => 0x1000
    case 13 => 0x2000
    case 14 => 0x4000
    case 15 => 0x8000
    case 16 => 0x10000
    case 17 => 0x20000
    case 18 => 0x40000
    case _ => 0x80000
  }

  /** The four surface base addresses that may carry a high nibble. */
  function Base(k: nat): (b: nat)
    ensures b + 1 < CONTEXT_WORDS
  {
    match k
    case 0 => 2
    case 1 => 7
    case 2 => 11
    case _ => 16
  }

  const BASES := 4

  predicate Selected(mask: Word, g: nat)
    requires g < GROUPS
  {
    mask / Bit(g) % 2 == 1
  }

  /** Words of the selected groups from `g` on. */
  function GroupWords(mask: Word, g: nat): nat
    requires g <= GROUPS
    decreases GROUPS - g
  {
    if g == GROUPS then 0
    else (if Selected(mask, g) then LayoutOf(g).words else 0) + GroupWords(mask, g + 1)
  }

  /** `hcge_node_words`: the length of a node, as its header determines it. */
  function NodeWords(mask: Word): nat {
    1 + GroupWords(mask, 0)
  }

  // ----- the serializer as a function of the context -----

  /** The context word that word `i` of group `g` comes from. */
  function SourceWord(g: nat, i: nat): nat
    requires g < GROUPS
  {
    if i == 1 && LayoutOf(g).second != 0 then LayoutOf(g).second else LayoutOf(g).contextWord + i
  }

  lemma {:induction false} SourceWordInContext(g: nat, i: nat)
    requires g < GROUPS && i < LayoutOf(g).words
    ensures SourceWord(g, i) < CONTEXT_WORDS
  {
  }

  /** The context by words: the group a word belongs to, and its place there. */
  function Owner(w: nat): Option<(nat, nat)> {
    if 28 <= w <= 30 then Some((5, w - 28))
    else if 35 <= w <= 41 then Some((18, w - 35))
    else if 42 <= w < CONTEXT_WORDS then Some((19, w - 42))
    else match w
      case 1 => Some((0, 0))
      case 2 => Some((1, 0))
      case 4 => Some((1, 1))
      case 5 => Some((8, 0))
      case 6 => Some((8, 1))
      case 7 => Some((2, 0))
      case 9 => Some((2, 1))
      case 10 => Some((9, 0))
      case 11 => Some((3, 0))
      case 13 => Some((3, 1))
      case 14 => Some((10, 0))
      case 15 => Some((10, 1))
      case 16 => Some((4, 0))
      case 18 => Some((4, 1))
      case 19 => Some((11, 0))
      case 20 => Some((11, 1))
      case 21 => Some((13, 0))
      case 22 => Some((13, 1))
      case 23 => Some((14, 0))
      case 24 => Some((14, 1))
      case 25 => Some((15, 0))
      case 26 => Some((7, 0))
      case 27 => Some((7, 1))
      case 33 => Some((6, 0))
      case 34 => Some((17, 0))
      case _ => None
  }

  /** Every word of a group is taken from the context word that belongs to it, so no two share one. */
  lemma {:induction false} SourceWordIsOwned(g: nat, i: nat)
    requires g < GROUPS && i < LayoutOf(g).words
    ensures Owner(SourceWord(g, i)) == Some((g, i))
  {
  }

  /** Every context word but the mask, the four record words and two unused ones belongs to a group. */
  lemma {:induction false} EveryWordIsUsed(w: nat)
    requires w < CONTEXT_WORDS
    ensures match Owner(w)
            case Some(p) => p.0 < GROUPS && p.1 < LayoutOf(p.0).words && SourceWord(p.0, p.1) == w
            case None => w == 0 || w == 31 || w == 32 || exists k :: 0 <= k < BASES && Base(k) + 1 == w
  {
    assert Base(0) + 1 == 3 && Base(1) + 1 == 8 && Base(2) + 1 == 12 && Base(3) + 1 == 17;
  }

  function GroupOf(ctx: seq<Word>, g: nat): (ws: seq<Word>)
    requires |ctx| == CONTEXT_WORDS && g < GROUPS
    ensures |ws| == LayoutOf(g).words
  {
    seq(LayoutOf(g).words, i requires 0 <= i < LayoutOf(g).words =>
      SourceWordInContext(g, i); ctx[SourceWord(g, i)])
  }

  /** The selected groups from `g` on, in group order. */
  function Body(ctx: seq<Word>, mask: Word, g: nat): seq<Word>
    requires |ctx| == CONTEXT_WORDS && g <= GROUPS
    decreases GROUPS - g
  {
    if g == GROUPS then []
    else (if Selected(mask, g) then GroupOf(ctx, g) else []) + Body(ctx, mask, g + 1)
  }

  function High(word: Word): (h: int)
    ensures 0 <= h < 16
  {
    word / 0x1000_0000
  }

  /** `((high + 0x2f) << 10) | 0x81000001`; the two parts share no bit. */
  function RecordTag(high: int): Word
    requires 0 <= high < 16
  {
    (high + 0x2f) * 0x400 + 0x8100_0001
  }

  /** Bit 25, which only headers have. */
  predicate IsHeader(word: Word) {
    word / HEADER_FLAG % 2 == 1
  }

  /** The high-address records of bases `k` and later. */
  function Records(ctx: seq<Word>, k: nat): seq<Word>
    requires |ctx| == CONTEXT_WORDS && k <= BASES
    decreases BASES - k
  {
    if k == BASES then []
    else (if High(ctx[Base(k)]) != 0 then [RecordTag(High(ctx[Base(k)])), ctx[Base(k) + 1]] else [])
         + Records(ctx, k + 1)
  }

  /** `mask | 0x02000000`. */
  function Header(mask: Word): Word {
    if IsHeader(mask) then mask else mask + HEADER_FLAG
  }

  function Node(ctx: seq<Word>): seq<Word>
    requires |ctx| == CONTEXT_WORDS
  {
    Records(ctx, 0) + [Header(ctx[0])] + Body(ctx, ctx[0], 0)
  }

  // ----- an independent decoder -----

  datatype Record = Record(high: int, word: Word)
  datatype Decoded = Decoded(records: seq<Record>, header: Word, groups: seq<seq<Word>>)
  /** Cuts the words after a header into groups; fails unless they are used up exactly. */
  function DecodeGroups(header: Word, ws: seq<Word>, g: nat): Option<seq<seq<Word>>>
    requires g <= GROUPS
    decreases GROUPS - g
  {
    if g == GROUPS then if ws == [] then Some([]) else None
    else
      var n := if Selected(header, g) then LayoutOf(g).words else 0;
      if n > |ws| then None
      else match DecodeGroups(header, ws[n..], g + 1)
        case None => None
        case Some(rest) => Some([ws[..n]] + rest)
  }

  function TagHigh(tag: Word): int {
    tag / 0x400 % 0x40 - 0x2f
  }

  /** Reads records while bit 25 is clear, then the header and its groups. */
  function Decode(ws: seq<Word>): Option<Decoded>
    decreases |ws|
  {
    if ws == [] then None
    else if IsHeader(ws[0]) then
      match DecodeGroups(ws[0], ws[1..], 0)
      case None => None
      case Some(groups) => Some(Decoded([], ws[0], groups))
    else if |ws| == 1 then None
    else match Decode(ws[2..])
      case None => None
      case Some(d) =>
        Some(d.(records := [Record(TagHigh(ws[0]), ws[1])] + d.records))
  }

  // ----- what the decoder recovers -----

  /** The records a context asks for, as (high nibble, following word). */
  function RecordsOf(ctx: seq<Word>, k: nat): seq<Record>
    requires |ctx| == CONTEXT_WORDS && k <= BASES
    decreases BASES - k
  {
    if k == BASES then []
    else (if High(ctx[Base(k)]) != 0 then [Record(High(ctx[Base(k)]), ctx[Base(k) + 1])] else [])
         + RecordsOf(ctx, k + 1)
  }

  function GroupsOf(ctx: seq<Word>, mask: Word, g: nat): seq<seq<Word>>
    requires |ctx| == CONTEXT_WORDS && g <= GROUPS
    decreases GROUPS - g
  {
    if g == GROUPS then []
    else [if Selected(mask, g) then GroupOf(ctx, g) else []] + GroupsOf(ctx, mask, g + 1)
  }

  /** Bit 25 tells a header from a record tag. */
  lemma {:induction false} HeaderOrRecord(w: Word)
    ensures IsHeader(Header(w))
    ensures !IsHeader(RecordTag(High(w))) && TagHigh(RecordTag(High(w))) == High(w)
    ensures High(w) * 0x1000_0000 <= w < (High(w) + 1) * 0x1000_0000
    ensures RecordTag(1) == 0x8100_c001 && RecordTag(15) == 0x8100_f801
  {
  }

  /** The flag does not disturb the group selection. */
  lemma {:induction false} HeaderSelects(mask: Word, g: nat)
    requires g < GROUPS
    ensures Selected(Header(mask), g) == Selected(mask, g)
  {
    hide Bit, IsHeader;
    var k := BitIsBelowFlag(g);
    ParityKept(mask, Bit(g), k);
  }

  lemma {:induction false} ParityKept(a: int, p: int, k: int)
    requires p > 0
    ensures (a + 2 * k * p) / p % 2 == a / p % 2
  {
    var q, r := a / p, a % p;
    assert a + 2 * k * p == (q + 2 * k) * p + r;
    DivModUnique(a + 2 * k * p, p, q + 2 * k, r);
  }

  lemma {:induction false} BitIsBelowFlag(g: nat) returns (k: int)
    ensures HEADER_FLAG == 2 * k * Bit(g)
  {
    k := match g
      case 0 => 0x100_0000 case 1 => 0x80_0000 case 2 => 0x40_0000 case 3 => 0x20_0000
      case 4 => 0x10_0000 case 5 => 0x8_0000 case 6 => 0x4_0000 case 7 => 0x2_0000
      case 8 => 0x1_0000 case 9 => 0x8000 case 10 => 0x4000 case 11 => 0x2000
      case 12 => 0x1000 case 13 => 0x800 case 14 => 0x400 case 15 => 0x200
      case 16 => 0x100 case 17 => 0x80 case 18 => 0x40 case _ => 0x20;
  }

  lemma {:induction false} DecodeBody(ctx: seq<Word>, mask: Word, g: nat)
    requires |ctx| == CONTEXT_WORDS && g <= GROUPS
    ensures DecodeGroups(Header(mask), Body(ctx, mask, g), g) == Some(GroupsOf(ctx, mask, g))
    decreases GROUPS - g
  {
    hide GroupOf, Header, Selected, LayoutOf;
    if g < GROUPS {
      DecodeBody(ctx, mask, g + 1);
      HeaderSelects(mask, g);
      var ws := Body(ctx, mask, g);
      var n := if Selected(mask, g) then LayoutOf(g).words else 0;
      var own := if Selected(mask, g) then GroupOf(ctx, g) else [];
      assert |own| == n && ws == own + Body(ctx, mask, g + 1);
      assert ws[n..] == Body(ctx, mask, g + 1) && ws[..n] == own;
    }
  }

  lemma {:induction false} DecodePair(tag: Word, word: Word, rest: seq<Word>)
    requires !IsHeader(tag) && Decode(rest).Some?
    ensures var d := Decode(rest).value;
            Decode([tag, word] + rest) == Some(d.(records := [Record(TagHigh(tag), word)] + d.records))
  {
    hide TagHigh, IsHeader;
    assert ([tag, word] + rest)[2..] == rest;
  }

  lemma {:induction false} DecodeHead(header: Word, body: seq<Word>)
    requires IsHeader(header) && DecodeGroups(header, body, 0).Some?
    ensures Decode([header] + body) == Some(Decoded([], header, DecodeGroups(header, body, 0).value))
  {
    hide IsHeader, DecodeGroups;
    assert ([header] + body)[1..] == body;
  }

  lemma {:induction false} Assoc(a: seq<Word>, b: seq<Word>, c: seq<Word>)
    ensures a + b + c == a + (b + c)
  {
  }

  /** The node from record `k` on. */
  function Suffix(ctx: seq<Word>, k: nat): seq<Word>
    requires |ctx| == CONTEXT_WORDS && k <= BASES
  {
    Records(ctx, k) + ([Header(ctx[0])] + Body(ctx, ctx[0], 0))
  }

  lemma {:induction false} DecodeRecords(ctx: seq<Word>, k: nat)
    requires |ctx| == CONTEXT_WORDS && k <= BASES
    ensures Decode(Suffix(ctx, k)) ==
            Some(Decoded(RecordsOf(ctx, k), Header(ctx[0]), GroupsOf(ctx, ctx[0], 0)))
    decreases BASES - k
  {
    hide Header, IsHeader, RecordTag, TagHigh, High, Body, GroupsOf, DecodeGroups, Base, Decode, Records, RecordsOf;
    var tail := [Header(ctx[0])] + Body(ctx, ctx[0], 0);
    if k == BASES {
      HeaderOrRecord(ctx[0]);
      RecordsUnfold(ctx, 0);
      DecodeBody(ctx, ctx[0], 0);
      DecodeHead(Header(ctx[0]), Body(ctx, ctx[0], 0));
      assert [] + tail == tail;
    } else {
      DecodeRecords(ctx, k + 1);
      RecordsUnfold(ctx, k);
      var w := ctx[Base(k)];
      if High(w) != 0 {
        HeaderOrRecord(w);
        DecodePair(RecordTag(High(w)), ctx[Base(k) + 1], Suffix(ctx, k + 1));
        Assoc([RecordTag(High(w)), ctx[Base(k) + 1]], Records(ctx, k + 1), tail);
      } else {
        assert [] + Records(ctx, k + 1) == Records(ctx, k + 1);
        assert [] + RecordsOf(ctx, k + 1) == RecordsOf(ctx, k + 1);
      }
    }
  }

  /** Decoding a built node gives back the mask, every selected group and the records in order. */
  lemma {:induction false} DecodeNode(ctx: seq<Word>)
    requires |ctx| == CONTEXT_WORDS
    ensures Decode(Node(ctx)) ==
            Some(Decoded(RecordsOf(ctx, 0), Header(ctx[0]), GroupsOf(ctx, ctx[0], 0)))
    ensures forall g | 0 <= g < GROUPS :: Selected(Header(ctx[0]), g) == Selected(ctx[0], g)
  {
    hide Decode, Records, RecordsOf, Body, GroupsOf, Header, Selected;
    DecodeRecords(ctx, 0);
    Assoc(Records(ctx, 0), [Header(ctx[0])], Body(ctx, ctx[0], 0));
    forall g | 0 <= g < GROUPS
      ensures Selected(Header(ctx[0]), g) == Selected(ctx[0], g)
    {
      HeaderSelects(ctx[0], g);
    }
  }

  // ----- lengths -----

  lemma {:induction false} BodyLength(ctx: seq<Word>, mask: Word, g: nat)
    requires |ctx| == CONTEXT_WORDS && g <= GROUPS
    ensures |Body(ctx, mask, g)| == GroupWords(mask, g)
    decreases GROUPS - g
  {
    hide GroupOf, Selected, LayoutOf;
    if g < GROUPS {
      BodyLength(ctx, mask, g + 1);
    }
  }

  /** Words of all groups from `g` on, selected or not: the most a node can hold. */
  function AllWords(g: nat): nat {
    match g
    case 0 => 163 case 1 => 162 case 2 => 160 case 3 => 158 case 4 => 156
    case 5 => 154 case 6 => 151 case 7 => 150 case 8 => 148 case 9 => 146
    case 10 => 145 case 11 => 143 case 12 => 141 case 13 => 141 case 14 => 139
    case 15 => 137 case 16 => 136 case 17 => 136 case 18 => 135 case 19 => 128
    case _ => 0
  }

  lemma {:induction false} AllWordsStep(g: nat)
    requires g < GROUPS
    ensures AllWords(g) == LayoutOf(g).words + AllWords(g + 1)
  {
  }

  lemma {:induction false} GroupWordsBound(mask: Word, g: nat)
    requires g <= GROUPS
    ensures GroupWords(mask, g) <= AllWords(g)
    decreases GROUPS - g
  {
    hide Selected, AllWords, LayoutOf;
    if g < GROUPS {
      GroupWordsBound(mask, g + 1);
      AllWordsStep(g);
    } else {
      NoWordsLeft();
    }
  }

  lemma {:induction false} NoWordsLeft()
    ensures AllWords(GROUPS) == 0 && AllWords(0) == 163
  {
  }

  lemma {:induction false} RecordsLength(ctx: seq<Word>, k: nat)
    requires |ctx| == CONTEXT_WORDS && k <= BASES
    ensures |Records(ctx, k)| == 2 * |RecordsOf(ctx, k)| <= 2 * (BASES - k)
    decreases BASES - k
  {
    hide High, RecordTag, Base;
    if k < BASES {
      RecordsLength(ctx, k + 1);
    }
  }

  /** A node has the words its header announces plus two per record, and always fits 172 words. */
  lemma {:induction false} NodeLength(ctx: seq<Word>)
    requires |ctx| == CONTEXT_WORDS
    ensures |Node(ctx)| == NodeWords(ctx[0]) + 2 * |RecordsOf(ctx, 0)| <= MAX_WORDS
  {
    hide Body, Records, RecordsOf, GroupWords, AllWords;
    BodyLength(ctx, ctx[0], 0);
    RecordsLength(ctx, 0);
    GroupWordsBound(ctx[0], 0);
    NoWordsLeft();
  }

  // ----- the code -----

  /** `hcge_node_words`. */
  method CountWords(mask: Word) returns (words: nat)
    ensures words == NodeWords(mask)
  {
    hide Selected, LayoutOf;
    words := 1;
    for g := 0 to GROUPS
      invariant words + GroupWords(mask, g) == NodeWords(mask)
    {
      if Selected(mask, g) {
        words := words + LayoutOf(g).words;
      }
    }
  }

  lemma {:induction false} RecordsUnfold(ctx: seq<Word>, k: nat)
    requires |ctx| == CONTEXT_WORDS && k < BASES
    ensures var w := ctx[Base(k)];
            && Records(ctx, k) ==
               (if High(w) != 0 then [RecordTag(High(w)), ctx[Base(k) + 1]] else []) + Records(ctx, k + 1)
            && RecordsOf(ctx, k) ==
               (if High(w) != 0 then [Record(High(w), ctx[Base(k) + 1])] else []) + RecordsOf(ctx, k + 1)
            && Records(ctx, BASES) == [] && RecordsOf(ctx, BASES) == []
  {
  }

  /** `done` has been written to the front of a buffer that held `before`. */
  ghost predicate Filled(m: seq<Word>, before: seq<Word>, done: seq<Word>) {
    |m| == |before| && |done| <= |m| && m == done + before[|done|..]
  }

  /** `node[output++] = w`. */
  method Put(node: array<Word>, output: nat, w: Word, ghost before: seq<Word>, ghost done: seq<Word>)
    returns (next: nat)
    requires output == |done| < node.Length && Filled(node[..], before, done)
    modifies node
    ensures next == output + 1 && Filled(node[..], before, done + [w])
  {
    node[output] := w;
    next := output + 1;
  }

  /** The record loop of `hcge_node_build`. */
  method BuildRecords(ctx: seq<Word>, node: array<Word>) returns (output: nat)
    requires |ctx| == CONTEXT_WORDS && |Records(ctx, 0)| <= node.Length
    modifies node
    ensures output == |Records(ctx, 0)| && Filled(node[..], old(node[..]), Records(ctx, 0))
  {
    hide Records, RecordsOf, High, Base, RecordTag, Filled;
    ghost var before := node[..];
    ghost var done: seq<Word> := [];
    output := 0;
    NothingFilled(before);
    assert [] + Records(ctx, 0) == Records(ctx, 0);
    for k := 0 to BASES
      invariant Records(ctx, 0) == done + Records(ctx, k)
      invariant output == |done| && Filled(node[..], before, done)
    {
      RecordsUnfold(ctx, k);
      var high := High(ctx[Base(k)]);
      if high != 0 {
        var tag, word := RecordTag(high), ctx[Base(k) + 1];
        Assoc(done, [tag, word], Records(ctx, k + 1));
        output := Put(node, output, tag, before, done);
        output := Put(node, output, word, before, done + [tag]);
        assert done + [tag] + [word] == done + [tag, word];
        done := done + [tag, word];
      } else {
        assert [] + Records(ctx, k + 1) == Records(ctx, k + 1);
      }
    }
    RecordsUnfold(ctx, 0);
    assert done + [] == done;
  }

  lemma {:induction false} NothingFilled(m: seq<Word>)
    ensures Filled(m, m, [])
  {
  }

  /** The word loop of one group. */
  method WriteGroup(ctx: seq<Word>, g: nat, node: array<Word>, at: nat, ghost before: seq<Word>, ghost done: seq<Word>)
    returns (output: nat)
    requires |ctx| == CONTEXT_WORDS && g < GROUPS && at == |done|
    requires at + LayoutOf(g).words <= node.Length && Filled(node[..], before, done)
    modifies node
    ensures output == at + LayoutOf(g).words && Filled(node[..], before, done + GroupOf(ctx, g))
  {
    hide LayoutOf, Filled, SourceWord;
    output := at;
    ghost var ws := GroupOf(ctx, g);
    assert done + ws[..0] == done;
    for i := 0 to LayoutOf(g).words
      invariant output == at + i && Filled(node[..], before, done + ws[..i])
    {
      SourceWordInContext(g, i);
      output := Put(node, output, ctx[SourceWord(g, i)], before, done + ws[..i]);
      assert done + ws[..i] + [ws[i]] == done + ws[..i + 1];
    }
    assert ws[..|ws|] == ws;
  }

  lemma {:induction false} BodyUnfold(ctx: seq<Word>, mask: Word, g: nat)
    requires |ctx| == CONTEXT_WORDS && g < GROUPS
    ensures Body(ctx, mask, g) == (if Selected(mask, g) then GroupOf(ctx, g) else []) + Body(ctx, mask, g + 1)
    ensures Body(ctx, mask, GROUPS) == []
  {
    hide GroupOf, Selected;
  }

  /** The group loop of `hcge_node_build`. */
  method BuildGroups(ctx: seq<Word>, mask: Word, node: array<Word>, at: nat, ghost before: seq<Word>, ghost head: seq<Word>)
    returns (output: nat)
    requires |ctx| == CONTEXT_WORDS && at == |head| && Filled(node[..], before, head)
    requires at + |Body(ctx, mask, 0)| <= node.Length
    modifies node
    ensures output == at + |Body(ctx, mask, 0)| && Filled(node[..], before, head + Body(ctx, mask, 0))
  {
    hide Body, GroupOf, Selected, LayoutOf, Filled;
    output := at;
    ghost var done := head;
    for g := 0 to GROUPS
      invariant head + Body(ctx, mask, 0) == done + Body(ctx, mask, g)
      invariant output == |done| && Filled(node[..], before, done)
    {
      BodyUnfold(ctx, mask, g);
      if Selected(mask, g) {
        Assoc(done, GroupOf(ctx, g), Body(ctx, mask, g + 1));
        output := WriteGroup(ctx, g, node, output, before, done);
        done := done + GroupOf(ctx, g);
      } else {
        assert [] + Body(ctx, mask, g + 1) == Body(ctx, mask, g + 1);
      }
    }
    BodyUnfold(ctx, mask, 0);
    assert done + [] == done;
  }

  /** The size computation of `hcge_node_build`. */
  method CountRequired(ctx: seq<Word>) returns (required: nat)
    requires |ctx| == CONTEXT_WORDS
    ensures required == |Node(ctx)|
  {
    hide Node, RecordsOf, NodeWords, High, Base;
    required := CountWords(ctx[0]);
    for k := 0 to BASES
      invariant required + 2 * |RecordsOf(ctx, k)| == NodeWords(ctx[0]) + 2 * |RecordsOf(ctx, 0)|
    {
      RecordsUnfold(ctx, k);
      if High(ctx[Base(k)]) != 0 {
        required := required + 2;
      }
    }
    RecordsUnfold(ctx, 0);
    NodeLength(ctx);
  }

  /** `hcge_node_build`: refuses exactly the buffers the node does not fit, and writes the node. */
  method Build(ctx: seq<Word>, node: array<Word>, capacity: nat) returns (ret: int, words: nat)
    requires |ctx| == CONTEXT_WORDS && capacity <= node.Length
    modifies node
    ensures ret == 0 <==> |Node(ctx)| <= capacity
    ensures ret == 0 ==> words == |Node(ctx)| && Filled(node[..], old(node[..]), Node(ctx))
    ensures ret != 0 ==> node[..] == old(node[..])
  {
    hide Body, Records, Filled, Header;
    var mask := ctx[0];
    var required := CountRequired(ctx);
    if required > capacity {
      return -1, 0;
    }
    ghost var before := node[..];
    words := BuildRecords(ctx, node);
    words := Put(node, words, Header(mask), before, Records(ctx, 0));
    words := BuildGroups(ctx, mask, node, words, before, Records(ctx, 0) + [Header(mask)]);
    ret := 0;
  }
}
