/** The published check value of CRC-32/MPEG-2, the checksum of the digits 1 to 9. */
module CrcCheck {
  import opened CArithmetic
  import opened Crc

  lemma {:induction false} Digit1()
    ensures Serial(0xffff_ffff, Lifted(0x31), 8) == 0x9efb_cf93
  {
    hide Serial, Lifted;
    Place1();
    Clock1();
  }

  lemma {:induction false} Place1()
    ensures Lifted(0x31) == 0x3100_0000
  {
    hide Bits;
    BitsAre(0x31);
  }

  lemma {:induction false} Clock1()
    ensures Serial(0xffff_ffff, 0x3100_0000, 8) == 0x9efb_cf93
  {
  }

  lemma {:induction false} Digit2()
    ensures Serial(0x9efb_cf93, Lifted(0x32), 8) == 0x3fec_5e6a
  {
    hide Serial, Lifted;
    Place2();
    Clock2();
  }

  lemma {:induction false} Place2()
    ensures Lifted(0x32) == 0x3200_0000
  {
    hide Bits;
    BitsAre(0x32);
  }

  lemma {:induction false} Clock2()
    ensures Serial(0x9efb_cf93, 0x3200_0000, 8) == 0x3fec_5e6a
  {
  }

  lemma {:induction false} Digit3()
    ensures Serial(0x3fec_5e6a, Lifted(0x33), 8) == 0xd952_f164
  {
    hide Serial, Lifted;
    Place3();
    Clock3();
  }

  lemma {:induction false} Place3()
    ensures Lifted(0x33) == 0x3300_0000
  {
    hide Bits;
    BitsAre(0x33);
  }

  lemma {:induction false} Clock3()
    ensures Serial(0x3fec_5e6a, 0x3300_0000, 8) == 0xd952_f164
  {
  }

  lemma {:induction false} Digit4()
    ensures Serial(0xd952_f164, Lifted(0x34), 8) == 0xa695_c4aa
  {
    hide Serial, Lifted;
    Place4();
    Clock4();
  }

  lemma {:induction false} Place4()
    ensures Lifted(0x34) == 0x3400_0000
  {
    hide Bits;
    BitsAre(0x34);
  }

  lemma {:induction false} Clock4()
    ensures Serial(0xd952_f164, 0x3400_0000, 8) == 0xa695_c4aa
  {
  }

  lemma {:induction false} Digit5()
    ensures Serial(0xa695_c4aa, Lifted(0x35), 8) == 0xbd9a_b747
  {
    hide Serial, Lifted;
    Place5();
    Clock5();
  }

  lemma {:induction false} Place5()
    ensures Lifted(0x35) == 0x3500_0000
  {
    hide Bits;
    BitsAre(0x35);
  }

  lemma {:induction false} Clock5()
    ensures Serial(0xa695_c4aa, 0x3500_0000, 8) == 0xbd9a_b747
  {
  }

  lemma {:induction false} Digit6()
    ensures Serial(0xbd9a_b747, Lifted(0x36), 8) == 0xd8f0_6c8f
  {
    hide Serial, Lifted;
    Place6();
    Clock6();
  }

  lemma {:induction false} Place6()
    ensures Lifted(0x36) == 0x3600_0000
  {
    hide Bits;
    BitsAre(0x36);
  }

  lemma {:induction false} Clock6()
    ensures Serial(0xbd9a_b747, 0x3600_0000, 8) == 0xd8f0_6c8f
  {
  }

  lemma {:induction false} Digit7()
    ensures Serial(0xd8f0_6c8f, Lifted(0x37), 8) == 0x0d8a_14c4
  {
    hide Serial, Lifted;
    Place7();
    Clock7();
  }

  lemma {:induction false} Place7()
    ensures Lifted(0x37) == 0x3700_0000
  {
    hide Bits;
    BitsAre(0x37);
  }

  lemma {:induction false} Clock7()
    ensures Serial(0xd8f0_6c8f, 0x3700_0000, 8) == 0x0d8a_14c4
  {
  }

  lemma {:induction false} Digit8()
    ensures Serial(0x0d8a_14c4, Lifted(0x38), 8) == 0x49e3_c2fb
  {
    hide Serial, Lifted;
    Place8();
    Clock8();
  }

  lemma {:induction false} Place8()
    ensures Lifted(0x38) == 0x3800_0000
  {
    hide Bits;
    BitsAre(0x38);
  }

  lemma {:induction false} Clock8()
    ensures Serial(0x0d8a_14c4, 0x3800_0000, 8) == 0x49e3_c2fb
  {
  }

  lemma {:induction false} Digit9()
    ensures Serial(0x49e3_c2fb, Lifted(0x39), 8) == 0x0376_e6e7
  {
    hide Serial, Lifted;
    Place9();
    Clock9();
  }

  lemma {:induction false} Place9()
    ensures Lifted(0x39) == 0x3900_0000
  {
    hide Bits;
    BitsAre(0x39);
  }

  lemma {:induction false} Clock9()
    ensures Serial(0x49e3_c2fb, 0x3900_0000, 8) == 0x0376_e6e7
  {
  }

  /** One more byte of a message. */
  lemma {:induction false} NextByte(message: seq<Byte>, b: Byte, c: bv32)
    requires Register(START, message) == c
    ensures Register(START, message + [b]) == Serial(c, Lifted(b), 8)
  {
    hide Serial, Lifted;
    assert (message + [b])[..|message|] == message;
  }

  /** "123456789" has the checksum 0x0376e6e7, by the register model and therefore by the table. */
  lemma {:induction false} CheckValue()
    ensures BitSerialCrc([0x31, 0x32, 0x33, 0x34, 0x35, 0x36, 0x37, 0x38, 0x39]) == 0x0376_e6e7
  {
    hide Serial, Lifted, Register;
    NoBytes();
    NextByte([], 0x31, 0xffff_ffff);
    Digit1();
    assert [] + [0x31] == [0x31];
    NextByte([0x31], 0x32, 0x9efb_cf93);
    Digit2();
    assert [0x31] + [0x32] == [0x31, 0x32];
    NextByte([0x31, 0x32], 0x33, 0x3fec_5e6a);
    Digit3();
    assert [0x31, 0x32] + [0x33] == [0x31, 0x32, 0x33];
    NextByte([0x31, 0x32, 0x33], 0x34, 0xd952_f164);
    Digit4();
    assert [0x31, 0x32, 0x33] + [0x34] == [0x31, 0x32, 0x33, 0x34];
    NextByte([0x31, 0x32, 0x33, 0x34], 0x35, 0xa695_c4aa);
    Digit5();
    assert [0x31, 0x32, 0x33, 0x34] + [0x35] == [0x31, 0x32, 0x33, 0x34, 0x35];
    NextByte([0x31, 0x32, 0x33, 0x34, 0x35], 0x36, 0xbd9a_b747);
    Digit6();
    assert [0x31, 0x32, 0x33, 0x34, 0x35] + [0x36] == [0x31, 0x32, 0x33, 0x34, 0x35, 0x36];
    NextByte([0x31, 0x32, 0x33, 0x34, 0x35, 0x36], 0x37, 0xd8f0_6c8f);
    Digit7();
    assert [0x31, 0x32, 0x33, 0x34, 0x35, 0x36] + [0x37] == [0x31, 0x32, 0x33, 0x34, 0x35, 0x36, 0x37];
    NextByte([0x31, 0x32, 0x33, 0x34, 0x35, 0x36, 0x37], 0x38, 0x0d8a_14c4);
    Digit8();
    assert [0x31, 0x32, 0x33, 0x34, 0x35, 0x36, 0x37] + [0x38] == [0x31, 0x32, 0x33, 0x34, 0x35, 0x36, 0x37, 0x38];
    NextByte([0x31, 0x32, 0x33, 0x34, 0x35, 0x36, 0x37, 0x38], 0x39, 0x49e3_c2fb);
    Digit9();
    assert [0x31, 0x32, 0x33, 0x34, 0x35, 0x36, 0x37, 0x38] + [0x39] == [0x31, 0x32, 0x33, 0x34, 0x35, 0x36, 0x37, 0x38, 0x39];
  }

  lemma {:induction false} NoBytes()
    ensures Register(START, []) == 0xffff_ffff
  {
  }
}
