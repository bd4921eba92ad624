// Both checksums against published values and against their definitions with every number written out.

module Checksums {
  import opened Basics
  import opened Crc

  // ----- CRC-32 -----

  lemma Appends(state: bv32, front: seq<byte>, b: byte)
    ensures Divide(state, front + [b]) == DivideByte(Divide(state, front), b)
  {
    hide DivideByte;
    assert (front + [b])[..|front|] == front;
  }

  lemma OneStep(a: bv32, b: bv32, n: nat)
    requires Step(a) == b
    ensures Steps(a, n + 1) == Steps(b, n)
  {
    hide Step;
  }

  /** Eight single steps, one after another. */
  lemma EightSteps(
      a: bv32, b: bv32, c: bv32, d: bv32, e: bv32, f: bv32, g: bv32, h: bv32, end: bv32)
    requires Step(a) == b && Step(b) == c && Step(c) == d && Step(d) == e
    requires Step(e) == f && Step(f) == g && Step(g) == h && Step(h) == end
    ensures Steps(a, 8) == end
  {
    hide Step, Steps;
    OneStep(a, b, 7);
    OneStep(b, c, 6);
    OneStep(c, d, 5);
    OneStep(d, e, 4);
    OneStep(e, f, 3);
    OneStep(f, g, 2);
    OneStep(g, h, 1);
    OneStep(h, end, 0);
    NoSteps(end);
  }

  lemma NoSteps(x: bv32)
    ensures Steps(x, 0) == x
  {
  }

  lemma DigitsOneToThree()
    ensures Steps(Xor(0xFFFF_FFFF, 0x31), 8) == 0x7C23_1048
    ensures Steps(Xor(0x7C23_1048, 0x32), 8) == 0xB0AC_BB32
    ensures Steps(Xor(0xB0AC_BB32, 0x33), 8) == 0x77B7_9C2D
  {
    hide Steps;
    EightSteps(0xFFFF_FFCE, 0x7FFF_FFE7, 0xD247_7CD3, 0x849B_3D49, 0xAFF5_1D84,
               0x57FA_8EC2, 0x2BFD_4761, 0xF846_2090, 0x7C23_1048);
    EightSteps(0x7C23_107A, 0x3E11_883D, 0xF2B0_473E, 0x7958_239F, 0xD114_92EF,
               0x8532_CA57, 0xAF21_E60B, 0xBA28_7025, 0xB0AC_BB32);
    EightSteps(0xB0AC_BB01, 0xB5EE_DEA0, 0x5AF7_6F50, 0x2D7B_B7A8, 0x16BD_DBD4,
               0x0B5E_EDEA, 0x05AF_76F5, 0xEF6F_385A, 0x77B7_9C2D);
  }

  lemma DigitsFourToSix()
    ensures Steps(Xor(0x77B7_9C2D, 0x34), 8) == 0x641C_1F5C
    ensures Steps(Xor(0x641C_1F5C, 0x35), 8) == 0x340A_C5E3
    ensures Steps(Xor(0x340A_C5E3, 0x36), 8) == 0xF68D_2C9E
  {
    hide Steps;
    EightSteps(0x77B7_9C19, 0xD663_4D2C, 0x6B31_A696, 0x3598_D34B, 0xF774_EA85,
               0x9602_F662, 0x4B01_7B31, 0xC838_3EB8, 0x641C_1F5C);
    EightSteps(0x641C_1F69, 0xDFB6_8C94, 0x6FDB_464A, 0x37ED_A325, 0xF64E_52B2,
               0x7B27_2959, 0xD02B_178C, 0x6815_8BC6, 0x340A_C5E3);
    EightSteps(0x340A_C5D5, 0xF7BD_E1CA, 0x7BDE_F0E5, 0xD057_FB52, 0x682B_FDA9,
               0xD9AD_7DF4, 0x6CD6_BEFA, 0x366B_5F7D, 0xF68D_2C9E);
  }

  lemma DigitsSevenToNine()
    ensures Steps(Xor(0xF68D_2C9E, 0x37), 8) == 0xAFFC_9660
    ensures Steps(Xor(0xAFFC_9660, 0x38), 8) == 0x651F_2550
    ensures Steps(Xor(0x651F_2550, 0x39), 8) == 0x340B_C6D9
  {
    hide Steps;
    EightSteps(0xF68D_2CA9, 0x96FE_1574, 0x4B7F_0ABA, 0x25BF_855D, 0xFF67_418E,
               0x7FB3_A0C7, 0xD261_5343, 0x8488_2A81, 0xAFFC_9660);
    EightSteps(0xAFFC_9658, 0x57FE_4B2C, 0x2BFF_2596, 0x15FF_92CB, 0xE747_4A45,
               0x9E1B_2602, 0x4F0D_9301, 0xCA3E_4AA0, 0x651F_2550);
    EightSteps(0x651F_2569, 0xDF37_1194, 0x6F9B_88CA, 0x37CD_C465, 0xF65E_6112,
               0x7B2F_3089, 0xD02F_1B64, 0x6817_8DB2, 0x340B_C6D9);
  }

  /** One more byte of a text, whose word and whose eight steps are known. */
  lemma OneByteMore(text: seq<byte>, k: nat, w: bv32, next: bv32)
    requires k < |text| && Word(text[k]) == w
    requires Steps(Xor(Divide(0xFFFF_FFFF, text[..k]), w), 8) == next
    ensures Divide(0xFFFF_FFFF, text[..k + 1]) == next
  {
    hide Divide, DivideByte, Steps, Word, Xor;
    Appends(0xFFFF_FFFF, text[..k], text[k]);
    DivideByteIsSteps(Divide(0xFFFF_FFFF, text[..k]), text[k]);
    assert text[..k + 1] == text[..k] + [text[k]];
  }

  lemma NibbleTurn(x: bv32, y: bv32, n: nat, v: nat)
    requires n >= 4 && Half(Half(Half(Half(x)))) == y
    requires v == (if x & 1 == 1 then 1 else 0) + (if Half(x) & 1 == 1 then 2 else 0) +
      (if Half(Half(x)) & 1 == 1 then 4 else 0) + (if Half(Half(Half(x))) & 1 == 1 then 8 else 0)
    ensures Number(x, n) == v + 16 * Number(y, n - 4)
  {
    hide Half;
    assert Number(x, n) == (if x & 1 == 1 then 1 else 0) + 2 * Number(Half(x), n - 1);
    assert Number(Half(x), n - 1) == (if Half(x) & 1 == 1 then 1 else 0) + 2 * Number(Half(Half(x)), n - 2);
    assert Number(Half(Half(x)), n - 2) ==
      (if Half(Half(x)) & 1 == 1 then 1 else 0) + 2 * Number(Half(Half(Half(x))), n - 3);
  }

  lemma Remainder()
    ensures Complement(0x340B_C6D9) == 0xCBF43926
  {
    hide Number;
    assert !(0x340B_C6D9 as bv32) == 0xCBF4_3926;
    NibbleTurn(0xCBF4_3926, 0x0CBF_4392, 32, 0x6);
    NibbleTurn(0x0CBF_4392, 0x00CB_F439, 28, 0x2);
    NibbleTurn(0x00CB_F439, 0x000C_BF43, 24, 0x9);
    NibbleTurn(0x000C_BF43, 0x0000_CBF4, 20, 0x3);
    NibbleTurn(0x0000_CBF4, 0x0000_0CBF, 16, 0x4);
    NibbleTurn(0x0000_0CBF, 0x0000_00CB, 12, 0xF);
    NibbleTurn(0x0000_00CB, 0x0000_000C, 8, 0xB);
    NibbleTurn(0x0000_000C, 0x0000_0000, 4, 0xC);
    NoNumber();
  }

  lemma NoNumber()
    ensures Number(0, 0) == 0
  {
  }

  lemma DigitWord(digit: nat, w: bv32)
    requires 1 <= digit <= 9 && w <= 0xFF && Number(w, 8) == 0x30 + digit
    ensures Word(0x30 + digit) == w
  {
    hide Number, Word, Shifted;
    ByteKept(0x30 + digit);
    WordIsByte(0x30 + digit);
    ByteShiftsOut(w);
    ByteShiftsOut(Word(0x30 + digit));
    NumbersTell(Word(0x30 + digit), w, 8);
  }

  lemma DigitWords()
    ensures Word(0x31) == 0x31
    ensures Word(0x32) == 0x32
    ensures Word(0x33) == 0x33
    ensures Word(0x34) == 0x34
    ensures Word(0x35) == 0x35
    ensures Word(0x36) == 0x36
    ensures Word(0x37) == 0x37
    ensures Word(0x38) == 0x38
    ensures Word(0x39) == 0x39
  {
    hide Number, Word;
    NoNumber();
    NibbleTurn(0x3, 0x0, 4, 3);
    NibbleTurn(0x31, 0x3, 8, 1);
    DigitWord(1, 0x31);
    NibbleTurn(0x32, 0x3, 8, 2);
    DigitWord(2, 0x32);
    NibbleTurn(0x33, 0x3, 8, 3);
    DigitWord(3, 0x33);
    NibbleTurn(0x34, 0x3, 8, 4);
    DigitWord(4, 0x34);
    NibbleTurn(0x35, 0x3, 8, 5);
    DigitWord(5, 0x35);
    NibbleTurn(0x36, 0x3, 8, 6);
    DigitWord(6, 0x36);
    NibbleTurn(0x37, 0x3, 8, 7);
    DigitWord(7, 0x37);
    NibbleTurn(0x38, 0x3, 8, 8);
    DigitWord(8, 0x38);
    NibbleTurn(0x39, 0x3, 8, 9);
    DigitWord(9, 0x39);
  }

  const CHECK_TEXT: seq<byte> := [0x31, 0x32, 0x33, 0x34, 0x35, 0x36, 0x37, 0x38, 0x39]

  /** The check value: the checksum of the text 123456789. */
  lemma CheckValue()
    ensures CrcSpec([0x31, 0x32, 0x33, 0x34, 0x35, 0x36, 0x37, 0x38, 0x39]) == 0xCBF4_3926
  {
    hide Divide, Complement, Steps, Word, Xor;
    DigitWords();
    DigitsOneToThree();
    DigitsFourToSix();
    DigitsSevenToNine();
    Remainder();
    NothingDivides(0xFFFF_FFFF);
    assert CHECK_TEXT[..0] == [] && CHECK_TEXT[..9] == CHECK_TEXT;
    OneByteMore(CHECK_TEXT, 0, 0x31, 0x7C23_1048);
    OneByteMore(CHECK_TEXT, 1, 0x32, 0xB0AC_BB32);
    OneByteMore(CHECK_TEXT, 2, 0x33, 0x77B7_9C2D);
    OneByteMore(CHECK_TEXT, 3, 0x34, 0x641C_1F5C);
    OneByteMore(CHECK_TEXT, 4, 0x35, 0x340A_C5E3);
    OneByteMore(CHECK_TEXT, 5, 0x36, 0xF68D_2C9E);
    OneByteMore(CHECK_TEXT, 6, 0x37, 0xAFFC_9660);
    OneByteMore(CHECK_TEXT, 7, 0x38, 0x651F_2550);
    OneByteMore(CHECK_TEXT, 8, 0x39, 0x340B_C6D9);
  }

  lemma NothingDivides(state: bv32)
    ensures Divide(state, []) == state
  {
  }
}
