/**
 `verify_repair_range` and `verify_repair_linux_elf` of boot/linux-loader.c: the readback
 that compares the moved image with its source and rewrites what differs. It reads the
 source again, after the move.
 */
module LoaderVerify {
  import opened CArithmetic
  import opened Loader

  /** Bytes `off .. off+n` of the destination become those of the source, read first. */
  function Rewrite(m: seq<Byte>, dst: nat, src: nat, off: nat, n: nat): (r: seq<Byte>)
    requires RangeInRam(m, dst, off + n) && RangeInRam(m, src, off + n)
    ensures |r| == |m|
  {
    m[..dst + off] + m[src + off..src + off + n] + m[dst + off + n..]
  }

  /** The readback from offset `off` on: words while they fit, then single bytes. */
  function Repaired(m: seq<Byte>, dst: nat, src: nat, off: nat, len: nat): (r: seq<Byte>)
    requires off <= len && RangeInRam(m, dst, len) && RangeInRam(m, src, len)
    ensures |r| == |m|
    decreases len - off
  {
    if off + 4 <= len then Repaired(Rewrite(m, dst, src, off, 4), dst, src, off + 4, len)
    else if off < len then Repaired(Rewrite(m, dst, src, off, 1), dst, src, off + 1, len)
    else m
  }

  /** The readback from `off` on leaves everything below `dst + off` alone. */
  lemma {:induction false} RepairsAbove(m: seq<Byte>, dst: nat, src: nat, off: nat, len: nat, a: nat)
    requires off <= len && RangeInRam(m, dst, len) && RangeInRam(m, src, len)
    requires a < dst + off
    ensures Repaired(m, dst, src, off, len)[a] == m[a]
    decreases len - off
  {
    if off + 4 <= len {
      RepairsAbove(Rewrite(m, dst, src, off, 4), dst, src, off + 4, len, a);
    } else if off < len {
      RepairsAbove(Rewrite(m, dst, src, off, 1), dst, src, off + 1, len, a);
    }
  }

  /** Destination bytes `off .. len` equal their source bytes. */
  ghost predicate Agree(m: seq<Byte>, dst: nat, src: nat, off: nat, len: nat)
    requires RangeInRam(m, dst, len) && RangeInRam(m, src, len)
  {
    forall a | dst + off <= a < dst + len :: m[a] == m[a - dst + src]
  }

  lemma {:induction false} RewriteIdentity(m: seq<Byte>, dst: nat, src: nat, off: nat, n: nat)
    requires RangeInRam(m, dst, off + n) && RangeInRam(m, src, off + n)
    ensures Rewrite(m, dst, src, off, n) == m <==> Agree(m, dst, src, off, off + n)
  {
    var r := Rewrite(m, dst, src, off, n);
    forall a | dst + off <= a < dst + off + n
      ensures r[a] == m[a - dst + src]
    {
    }
    assert Agree(m, dst, src, off, off + n) ==> forall a | 0 <= a < |m| :: r[a] == m[a];
  }

  /** The readback changes nothing exactly when source and destination agree beforehand. */
  lemma {:induction false} NoRepairIff(m: seq<Byte>, dst: nat, src: nat, off: nat, len: nat)
    requires off <= len && RangeInRam(m, dst, len) && RangeInRam(m, src, len)
    ensures Repaired(m, dst, src, off, len) == m <==> Agree(m, dst, src, off, len)
    decreases len - off
  {
    hide Rewrite;
    if off < len {
      var n := if off + 4 <= len then 4 else 1;
      var w := Rewrite(m, dst, src, off, n);
      RewriteIdentity(m, dst, src, off, n);
      if w == m {
        NoRepairIff(m, dst, src, off + n, len);
      } else {
        var a :| dst + off <= a < dst + off + n && m[a] != m[a - dst + src];
        RepairsAbove(w, dst, src, off + n, len, a);
        RewriteAt(m, dst, src, off, n, a);
      }
    }
  }

  lemma {:induction false} RewriteAt(m: seq<Byte>, dst: nat, src: nat, off: nat, n: nat, a: nat)
    requires RangeInRam(m, dst, off + n) && RangeInRam(m, src, off + n)
    requires dst + off <= a < dst + off + n
    ensures Rewrite(m, dst, src, off, n)[a] == m[a - dst + src]
  {
  }

  /**
   Moving a segment up by `d` and reading it back leaves the image alone exactly when the
   part of the file that was overwritten repeats with period `d`; in particular whenever
   source and destination do not overlap.
   */
  lemma {:induction false} ReadbackKeepsMoveIff(m: seq<Byte>, dst: nat, src: nat, len: nat)
    requires src <= dst && RangeInRam(m, dst, len) && RangeInRam(m, src, len)
    ensures var moved := Moved(m, dst, src, len);
            Repaired(moved, dst, src, 0, len) == moved <==>
            forall a | dst <= a < src + len :: m[a] == m[a - (dst - src)]
  {
    hide Moved, Repaired;
    var d := dst - src;
    var moved := Moved(m, dst, src, len);
    NoRepairIff(moved, dst, src, 0, len);
    if Agree(moved, dst, src, 0, len) {
      forall a | dst <= a < src + len
        ensures m[a] == m[a - d]
      {
        MovedAt(m, dst, src, len, a + d);
        MovedAt(m, dst, src, len, a);
        assert moved[a + d] == moved[a];
      }
    } else {
      var b :| dst <= b < dst + len && moved[b] != moved[b - dst + src];
      MovedAt(m, dst, src, len, b);
      MovedAt(m, dst, src, len, b - dst + src);
    }
  }

  lemma {:induction false} MovedAt(m: seq<Byte>, dst: nat, src: nat, len: nat, a: nat)
    requires RangeInRam(m, dst, len) && RangeInRam(m, src, len) && a < |m|
    ensures Moved(m, dst, src, len)[a] == if dst <= a < dst + len then m[a - dst + src] else m[a]
  {
  }

  /** Eight bytes moved up by four are destroyed by their own readback. */
  lemma {:induction false} ReadbackCorruptsOverlap()
    ensures var m: seq<Byte> := [1, 1, 1, 1, 2, 2, 2, 2, 0, 0, 0, 0];
            && Moved(m, 4, 0, 8) == [1, 1, 1, 1, 1, 1, 1, 1, 2, 2, 2, 2]
            && Repaired(Moved(m, 4, 0, 8), 4, 0, 0, 8) != Moved(m, 4, 0, 8)
  {
    var m: seq<Byte> := [1, 1, 1, 1, 2, 2, 2, 2, 0, 0, 0, 0];
    ReadbackKeepsMoveIff(m, 4, 0, 8);
    assert m[4] != m[4 - (4 - 0)];
  }

  /** After a finished load, a segment whose source nothing was written over reads back clean. */
  lemma {:induction false} DisjointReadbackIsQuiet(m0: seq<Byte>, m: seq<Byte>, ss: seq<Segment>,
                                                   dtb: nat, dtbSize: nat, dest: int, i: nat)
    requires Loaded(m0, m, ss, dtb, dtbSize, dest) && i < |ss| && ss[i].load
    requires forall a | ss[i].src <= a < ss[i].src + ss[i].filesz ::
               !Written(ss, 0, a) && !(dest <= a < dest + dtbSize)
    ensures Placed(m0, m, ss[i]) && Repaired(m, ss[i].dst, ss[i].src, 0, ss[i].filesz) == m
  {
    var s := ss[i];
    assert Placed(m0, m, s);
    forall a | s.dst <= a < s.dst + s.filesz
      ensures m[a] == m[a - s.dst + s.src]
    {
      assert s.Covers(a) && m[a] == ImageByte(m0, s, a);
      assert !Written(ss, 0, a - s.dst + s.src);
    }
    NoRepairIff(m, s.dst, s.src, 0, s.filesz);
  }

  // ----- the code -----

  /** `verify_repair_range`; the count is of words and tail bytes rewritten. */
  method VerifyRepairRange(mem: array<Byte>, dst: nat, src: nat, len: nat) returns (repairs: nat)
    requires RangeInRam(mem[..], dst, len) && RangeInRam(mem[..], src, len)
    modifies mem
    ensures mem[..] == Repaired(old(mem[..]), dst, src, 0, len)
    ensures repairs == 0 <==> mem[..] == old(mem[..])
  {
    hide Repaired, Rewrite;
    ghost var m0 := mem[..];
    var off := 0;
    repairs := 0;
    while off < len
      invariant 0 <= off <= len
      invariant Repaired(m0, dst, src, 0, len) == Repaired(mem[..], dst, src, off, len)
      invariant repairs == 0 ==> mem[..] == m0
      invariant repairs > 0 ==> exists a :: 0 <= a < dst + off && a < |m0| && mem[..][a] != m0[a]
      invariant forall a | dst + off <= a < mem.Length :: mem[..][a] == m0[a]
    {
      var n := if off + 4 <= len then 4 else 1;
      RepairedUnfold(mem[..], dst, src, off, len);
      var changed := RepairUnit(mem, dst, src, off, n);
      if changed {
        repairs := repairs + 1;
      }
      off := off + n;
    }
    RepairedEnd(mem[..], dst, src, len);
  }

  /** One comparison: a word or a byte is rewritten when it differs. */
  method RepairUnit(mem: array<Byte>, dst: nat, src: nat, off: nat, n: nat) returns (changed: bool)
    requires RangeInRam(mem[..], dst, off + n) && RangeInRam(mem[..], src, off + n)
    modifies mem
    ensures mem[..] == Rewrite(old(mem[..]), dst, src, off, n)
    ensures changed <==> mem[..] != old(mem[..])
    ensures changed ==> exists a :: 0 <= a < dst + off + n && mem[..][a] != old(mem[..])[a]
    ensures forall a | 0 <= a < dst + off || dst + off + n <= a < mem.Length :: mem[..][a] == old(mem[..])[a]
  {
    var want := mem[src + off..src + off + n];
    var got := mem[dst + off..dst + off + n];
    changed := got != want;
    if changed {
      forall i | 0 <= i < n {
        mem[dst + off + i] := want[i];
      }
      assert mem[dst + off..dst + off + n] == want;
      ghost var k :| 0 <= k < n && got[k] != want[k];
      assert mem[..][dst + off + k] != old(mem[..])[dst + off + k];
    }
  }

  lemma RepairedUnfold(m: seq<Byte>, dst: nat, src: nat, off: nat, len: nat)
    requires off < len && RangeInRam(m, dst, len) && RangeInRam(m, src, len)
    ensures var n := if off + 4 <= len then 4 else 1;
            Repaired(m, dst, src, off, len) == Repaired(Rewrite(m, dst, src, off, n), dst, src, off + n, len)
  {
    hide Rewrite;
  }

  lemma RepairedEnd(m: seq<Byte>, dst: nat, src: nat, len: nat)
    requires RangeInRam(m, dst, len) && RangeInRam(m, src, len)
    ensures Repaired(m, dst, src, len, len) == m
  {
  }
}
