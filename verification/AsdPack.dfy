/** The firmware image packer and checker, tools/asdpack.c, on a host with 64-bit sizes. */
module AsdPack {
  import opened CArithmetic
  import opened Crc

  const IMAGE_START := 0x1000
  const HEADER := 0x200
  const SIZE_OFF := 0x184
  const CRC_OFF := 0x18c

  const MAGIC: seq<Byte> := [0x4c, 0x43, 0x46, 0x47]

  /** An image begins with "LCFG". */
  lemma {:induction false} MagicIsText()
    ensures |MAGIC| == |"LCFG"| && forall i | 0 <= i < |MAGIC| :: MAGIC[i] == "LCFG"[i] as int
  {
    var t := "LCFG";
    assert t[0] == 'L' && t[1] == 'C' && t[2] == 'F' && t[3] == 'G';
  }

  // ----- little-endian words -----

  function Le32(v: int): (bs: seq<Byte>)
    ensures |bs| == 4
  {
    [v % 256, v / 0x100 % 256, v / 0x1_0000 % 256, v / 0x100_0000 % 256]
  }

  /** `read_le32`. */
  function Read32(bs: seq<Byte>): (v: int)
    requires |bs| == 4
    ensures 0 <= v < U32
  {
    var b0: int, b1: int, b2: int, b3: int := bs[0], bs[1], bs[2], bs[3];
    b0 + 0x100 * (b1 + 0x100 * (b2 + 0x100 * b3))
  }

  lemma {:induction false} Le32RoundTrip(v: int)
    ensures Read32(Le32(v)) == Wrap32(v)
  {
    var q1, q2, q3 := v / 0x100, v / 0x1_0000, v / 0x100_0000;
    assert q2 == q1 / 0x100 && q3 == q2 / 0x100;
    assert v == v % 0x100 + 0x100 * (q1 % 0x100) + 0x1_0000 * (q2 % 0x100) + 0x100_0000 * (q3 % 0x100)
                + U32 * (q3 / 0x100);
    DivModUnique(v, U32, q3 / 0x100, Read32(Le32(v)));
  }

  lemma {:induction false} Read32Injective(a: seq<Byte>, b: seq<Byte>)
    requires |a| == |b| == 4 && Read32(a) == Read32(b)
    ensures a == b
  {
    Digit(a[0], a[1] + 0x100 * (a[2] + 0x100 * a[3] as int), b[0], b[1] + 0x100 * (b[2] + 0x100 * b[3] as int));
    Digit(a[1], a[2] + 0x100 * a[3] as int, b[1], b[2] + 0x100 * b[3] as int);
    Digit(a[2], a[3], b[2], b[3]);
  }

  lemma {:induction false} Digit(a: Byte, x: int, b: Byte, y: int)
    requires a + 0x100 * x == b + 0x100 * y
    ensures a == b && x == y
  {
  }

  // ----- images -----

  function Zeros(n: nat): (bs: seq<Byte>)
    ensures |bs| == n
  {
    seq(n, _ => 0)
  }

  function Checksum(payload: seq<Byte>): (v: int)
    ensures 0 <= v < U32
  {
    WordRange(BitSerialCrc(payload));
    BitSerialCrc(payload) as int
  }

  lemma {:induction false} WordRange(x: bv32)
    ensures 0 <= x as int < U32
  {
  }

  lemma {:induction false} WordAsInt(x: bv32, y: bv32)
    requires x as int == y as int
    ensures x == y
  {
    assert (x as int) as bv32 == x;
    assert (y as int) as bv32 == y;
  }

  function Header(size: int, crc: int): (bs: seq<Byte>)
    ensures |bs| == HEADER
  {
    MAGIC + Zeros(0x180) + Le32(size) + Zeros(4) + Le32(crc) + Zeros(0x70)
  }

  /** What `pack_file` writes for an input. */
  function Packed(input: seq<Byte>): seq<Byte> {
    var payload := Zeros(IMAGE_START - HEADER) + input;
    Header(Wrap32(|payload|), Checksum(payload)) + payload
  }

  /** What `check_file` demands. */
  predicate Passes(image: seq<Byte>) {
    && |image| >= IMAGE_START
    && image[..4] == MAGIC
    && Read32(image[SIZE_OFF..SIZE_OFF + 4]) == |image| - HEADER
    && Read32(image[CRC_OFF..CRC_OFF + 4]) == Checksum(image[HEADER..])
  }

  lemma {:induction false} HeaderFields(size: int, crc: int)
    ensures var h := Header(size, crc);
            h[..4] == MAGIC && h[SIZE_OFF..SIZE_OFF + 4] == Le32(size) && h[CRC_OFF..CRC_OFF + 4] == Le32(crc)
  {
    hide Zeros, Le32;
  }

  /** A packed image passes the check exactly when its payload size fits the 32-bit header field. */
  lemma {:induction false} PackedPassesIff(input: seq<Byte>)
    ensures Passes(Packed(input)) <==> |input| + 0xe00 < 0x1_0000_0000
  {
    hide Header, Zeros, Le32, Checksum, Read32;
    var payload := Zeros(IMAGE_START - HEADER) + input;
    var crc := Checksum(payload);
    var h, image := Header(Wrap32(|payload|), crc), Packed(input);
    HeaderFields(Wrap32(|payload|), crc);
    assert image[..4] == h[..4];
    assert image[SIZE_OFF..SIZE_OFF + 4] == h[SIZE_OFF..SIZE_OFF + 4];
    assert image[CRC_OFF..CRC_OFF + 4] == h[CRC_OFF..CRC_OFF + 4];
    assert image[HEADER..] == payload;
    Le32RoundTrip(Wrap32(|payload|));
    Le32RoundTrip(crc);
  }

  /** The input can be taken out of the image again. */
  lemma {:induction false} PackedCarriesInput(input: seq<Byte>)
    ensures |Packed(input)| == 0x1000 + |input| && Packed(input)[0x1000..] == input
  {
    hide Header, Zeros, Checksum;
  }

  /** The bytes the check depends on. */
  predicate Covered(k: nat) {
    k < 4 || 0x184 <= k < 0x188 || 0x18c <= k < 0x190 || 0x200 <= k
  }

  /** Changes within four adjacent payload bytes always make the check fail. */
  lemma {:induction false} BurstFails(image: seq<Byte>, other: seq<Byte>, k: nat)
    requires Passes(image) && |other| == |image| && HEADER <= k <= |image| - 4
    requires other != image && other[..k] == image[..k] && other[k + 4..] == image[k + 4..]
    ensures !Passes(other)
  {
    hide Read32, Checksum, MAGIC;
    var a, b := image[HEADER..k], image[k + 4..];
    var w, v := image[k..k + 4], other[k..k + 4];
    Around(image, k);
    Around(other, k);
    assert other[HEADER..k] == other[..k][HEADER..] == a;
    assert w != v;
    assert other[CRC_OFF..CRC_OFF + 4] == other[..k][CRC_OFF..CRC_OFF + 4] == image[CRC_OFF..CRC_OFF + 4];
    BurstChangesChecksum(a, w, v, b);
  }

  lemma {:induction false} Around(image: seq<Byte>, k: nat)
    requires HEADER <= k <= |image| - 4
    ensures image[HEADER..] == image[HEADER..k] + image[k..k + 4] + image[k + 4..]
    ensures image == image[..k] + image[k..k + 4] + image[k + 4..]
  {
  }

  lemma {:induction false} BurstChangesChecksum(a: seq<Byte>, w: seq<Byte>, v: seq<Byte>, b: seq<Byte>)
    requires |w| == |v| <= 4 && w != v
    ensures Checksum(a + w + b) != Checksum(a + v + b)
  {
    hide BitSerialCrc;
    BurstIsSeen(a, w, v, b);
    if Checksum(a + w + b) == Checksum(a + v + b) {
      WordAsInt(BitSerialCrc(a + w + b), BitSerialCrc(a + v + b));
    }
  }

  /** Changing one byte of a good image is noticed exactly when that byte is covered. */
  lemma {:induction false} ByteChange(image: seq<Byte>, k: nat, v: Byte)
    requires Passes(image) && k < |image| && v != image[k]
    ensures Passes(image[k := v]) <==> !Covered(k)
  {
    hide Read32, Zeros, Checksum, MAGIC;
    var other := image[k := v];
    if k >= HEADER {
      var at := if k <= |image| - 4 then k else |image| - 4;
      assert other[..at] == image[..at] && other[at + 4..] == image[at + 4..];
      BurstFails(image, other, at);
    } else {
      assert other[HEADER..] == image[HEADER..];
      FieldChange(image, k, v, 0);
      FieldChange(image, k, v, SIZE_OFF);
      FieldChange(image, k, v, CRC_OFF);
    }
  }

  lemma {:induction false} FieldChange(image: seq<Byte>, k: nat, v: Byte, off: nat)
    requires k < |image| && off + 4 <= |image| && v != image[k]
    ensures off <= k < off + 4 ==>
              image[k := v][off..off + 4] != image[off..off + 4] &&
              Read32(image[k := v][off..off + 4]) != Read32(image[off..off + 4])
    ensures !(off <= k < off + 4) ==> image[k := v][off..off + 4] == image[off..off + 4]
  {
    hide Read32;
    var a, b := image[off..off + 4], image[k := v][off..off + 4];
    if off <= k < off + 4 {
      assert a[k - off] != b[k - off];
      if Read32(a) == Read32(b) {
        Read32Injective(a, b);
      }
    }
  }

  // ----- the code -----

  /** `write_le32`. */
  method WriteLe32(buf: array<Byte>, off: nat, value: int)
    requires off + 4 <= buf.Length && 0 <= value < U32
    modifies buf
    ensures buf[..] == old(buf[..off]) + Le32(value) + old(buf[off + 4..])
  {
    buf[off] := value % 256;
    buf[off + 1] := value / 0x100 % 256;
    buf[off + 2] := value / 0x1_0000 % 256;
    buf[off + 3] := value / 0x100_0000 % 256;
  }

  /** `check_file` on the bytes of a file. */
  method CheckFile(image: seq<Byte>) returns (ok: bool)
    ensures ok == Passes(image)
  {
    hide Read32, BitSerialCrc, MAGIC;
    if |image| < IMAGE_START {
      return false;
    }
    if image[..4] != MAGIC {
      return false;
    }
    var payload := |image| - HEADER;
    if Read32(image[SIZE_OFF..SIZE_OFF + 4]) != payload {
      return false;
    }
    var stored := Read32(image[CRC_OFF..CRC_OFF + 4]);
    var crc := CrcMpeg2(image[HEADER..]);
    return stored == crc as int;
  }

  /** The image before the two header words are written: magic, zeros, input. */
  ghost function Blank(input: seq<Byte>): seq<Byte> {
    MAGIC + Zeros(0x180) + Zeros(4) + Zeros(4) + Zeros(4) + Zeros(0x70) + (Zeros(IMAGE_START - HEADER) + input)
  }

  /** The zeroed buffer of `pack_file` after the copy and the magic. */
  method Layout(input: seq<Byte>) returns (out: array<Byte>)
    ensures fresh(out) && out[..] == Blank(input)
  {
    out := new Byte[IMAGE_START + |input|](_ => 0);
    for i := 0 to |input|
      invariant forall k | 0 <= k < IMAGE_START :: out[k] == 0
      invariant forall k | 0 <= k < i :: out[IMAGE_START + k] == input[k]
    {
      out[IMAGE_START + i] := input[i];
    }
    out[0] := 0x4c;
    out[1] := 0x43;
    out[2] := 0x46;
    out[3] := 0x47;
  }

  /** Replacing four bytes in the middle. */
  lemma {:induction false} Patch(a: seq<Byte>, w: seq<Byte>, v: seq<Byte>, b: seq<Byte>)
    requires |w| == |v| == 4
    ensures var s := a + w + b; s[..|a|] + v + s[|a| + 4..] == a + v + b
  {
  }

  lemma {:induction false} Regroup(input: seq<Byte>, size: int, crc: int)
    ensures var payload := Zeros(IMAGE_START - HEADER) + input;
            var a, b := MAGIC + Zeros(0x180), Zeros(0x70) + payload;
            && Blank(input) == a + Zeros(4) + (Zeros(4) + Zeros(4) + b)
            && a + Le32(size) + (Zeros(4) + Zeros(4) + b) == (a + Le32(size) + Zeros(4)) + Zeros(4) + b
            && (a + Le32(size) + Zeros(4)) + Le32(crc) + b == Header(size, crc) + payload
            && (a + Le32(size) + (Zeros(4) + Zeros(4) + b))[HEADER..] == payload
  {
    hide Zeros, Le32;
  }

  /** `pack_file`: the buffer that goes to the output file. */
  method PackFile(input: seq<Byte>) returns (out: array<Byte>)
    ensures fresh(out) && out[..] == Packed(input)
  {
    hide Zeros, Le32, MAGIC, BitSerialCrc, Header, Blank;
    out := Layout(input);
    ghost var payload := Zeros(IMAGE_START - HEADER) + input;
    ghost var a, b := MAGIC + Zeros(0x180), Zeros(0x70) + payload;
    var size := out.Length - HEADER;
    Regroup(input, Wrap32(size), Checksum(payload));
    assert |out[..]| == |payload| + HEADER;
    Patch(a, Zeros(4), Le32(Wrap32(size)), Zeros(4) + Zeros(4) + b);
    ghost var blank := out[..];
    assert out[..SIZE_OFF] == blank[..SIZE_OFF] && out[SIZE_OFF + 4..] == blank[SIZE_OFF + 4..];
    WriteLe32(out, SIZE_OFF, Wrap32(size));
    ghost var sized := out[..];
    assert out[HEADER..] == sized[HEADER..] == payload;
    var crc := CrcMpeg2(out[HEADER..]);
    Patch(a + Le32(Wrap32(size)) + Zeros(4), Zeros(4), Le32(Checksum(payload)), b);
    assert out[..CRC_OFF] == sized[..CRC_OFF] && out[CRC_OFF + 4..] == sized[CRC_OFF + 4..];
    WriteLe32(out, CRC_OFF, crc as int);
  }
}
