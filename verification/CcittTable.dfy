/** The table of the reflected CRC-16, each entry what eight single-bit steps make of its index. */
module CcittTable {
  import opened CcittSteps
  import opened CrcTheory

  const ROW_0: seq<bv16> := [
    0x0000, 0x1189, 0x2312, 0x329b, 0x4624, 0x57ad, 0x6536, 0x74bf,
    0x8c48, 0x9dc1, 0xaf5a, 0xbed3, 0xca6c, 0xdbe5, 0xe97e, 0xf8f7]
  const ROW_1: seq<bv16> := [
    0x1081, 0x0108, 0x3393, 0x221a, 0x56a5, 0x472c, 0x75b7, 0x643e,
    0x9cc9, 0x8d40, 0xbfdb, 0xae52, 0xdaed, 0xcb64, 0xf9ff, 0xe876]
  const ROW_2: seq<bv16> := [
    0x2102, 0x308b, 0x0210, 0x1399, 0x6726, 0x76af, 0x4434, 0x55bd,
    0xad4a, 0xbcc3, 0x8e58, 0x9fd1, 0xeb6e, 0xfae7, 0xc87c, 0xd9f5]
  const ROW_3: seq<bv16> := [
    0x3183, 0x200a, 0x1291, 0x0318, 0x77a7, 0x662e, 0x54b5, 0x453c,
    0xbdcb, 0xac42, 0x9ed9, 0x8f50, 0xfbef, 0xea66, 0xd8fd, 0xc974]
  const ROW_4: seq<bv16> := [
    0x4204, 0x538d, 0x6116, 0x709f, 0x0420, 0x15a9, 0x2732, 0x36bb,
    0xce4c, 0xdfc5, 0xed5e, 0xfcd7, 0x8868, 0x99e1, 0xab7a, 0xbaf3]
  const ROW_5: seq<bv16> := [
    0x5285, 0x430c, 0x7197, 0x601e, 0x14a1, 0x0528, 0x37b3, 0x263a,
    0xdecd, 0xcf44, 0xfddf, 0xec56, 0x98e9, 0x8960, 0xbbfb, 0xaa72]
  const ROW_6: seq<bv16> := [
    0x6306, 0x728f, 0x4014, 0x519d, 0x2522, 0x34ab, 0x0630, 0x17b9,
    0xef4e, 0xfec7, 0xcc5c, 0xddd5, 0xa96a, 0xb8e3, 0x8a78, 0x9bf1]
  const ROW_7: seq<bv16> := [
    0x7387, 0x620e, 0x5095, 0x411c, 0x35a3, 0x242a, 0x16b1, 0x0738,
    0xffcf, 0xee46, 0xdcdd, 0xcd54, 0xb9eb, 0xa862, 0x9af9, 0x8b70]
  const ROW_8: seq<bv16> := [
    0x8408, 0x9581, 0xa71a, 0xb693, 0xc22c, 0xd3a5, 0xe13e, 0xf0b7,
    0x0840, 0x19c9, 0x2b52, 0x3adb, 0x4e64, 0x5fed, 0x6d76, 0x7cff]
  const ROW_9: seq<bv16> := [
    0x9489, 0x8500, 0xb79b, 0xa612, 0xd2ad, 0xc324, 0xf1bf, 0xe036,
    0x18c1, 0x0948, 0x3bd3, 0x2a5a, 0x5ee5, 0x4f6c, 0x7df7, 0x6c7e]
  const ROW_A: seq<bv16> := [
    0xa50a, 0xb483, 0x8618, 0x9791, 0xe32e, 0xf2a7, 0xc03c, 0xd1b5,
    0x2942, 0x38cb, 0x0a50, 0x1bd9, 0x6f66, 0x7eef, 0x4c74, 0x5dfd]
  const ROW_B: seq<bv16> := [
    0xb58b, 0xa402, 0x9699, 0x8710, 0xf3af, 0xe226, 0xd0bd, 0xc134,
    0x39c3, 0x284a, 0x1ad1, 0x0b58, 0x7fe7, 0x6e6e, 0x5cf5, 0x4d7c]
  const ROW_C: seq<bv16> := [
    0xc60c, 0xd785, 0xe51e, 0xf497, 0x8028, 0x91a1, 0xa33a, 0xb2b3,
    0x4a44, 0x5bcd, 0x6956, 0x78df, 0x0c60, 0x1de9, 0x2f72, 0x3efb]
  const ROW_D: seq<bv16> := [
    0xd68d, 0xc704, 0xf59f, 0xe416, 0x90a9, 0x8120, 0xb3bb, 0xa232,
    0x5ac5, 0x4b4c, 0x79d7, 0x685e, 0x1ce1, 0x0d68, 0x3ff3, 0x2e7a]
  const ROW_E: seq<bv16> := [
    0xe70e, 0xf687, 0xc41c, 0xd595, 0xa12a, 0xb0a3, 0x8238, 0x93b1,
    0x6b46, 0x7acf, 0x4854, 0x59dd, 0x2d62, 0x3ceb, 0x0e70, 0x1ff9]
  const ROW_F: seq<bv16> := [
    0xf78f, 0xe606, 0xd49d, 0xc514, 0xb1ab, 0xa022, 0x92b9, 0x8330,
    0x7bc7, 0x6a4e, 0x58d5, 0x495c, 0x3de3, 0x2c6a, 0x1ef1, 0x0f78]

  const ROWS: seq<seq<bv16>> := [
    ROW_0, ROW_1, ROW_2, ROW_3, ROW_4, ROW_5, ROW_6, ROW_7,
    ROW_8, ROW_9, ROW_A, ROW_B, ROW_C, ROW_D, ROW_E, ROW_F]

  function Steps(c: bv16): bv16 { Step(Step(Step(Step(Step(Step(Step(Step(c)))))))) }

  function Entry(x: bv8): bv16 { Steps(x as bv16) }

  ghost predicate IsRow(row: seq<bv16>, s: bv8)
  {
    |row| == 16 &&
    row[0] == Entry(s) && row[1] == Entry(s + 1) && row[2] == Entry(s + 2) && row[3] == Entry(s + 3) &&
    row[4] == Entry(s + 4) && row[5] == Entry(s + 5) && row[6] == Entry(s + 6) && row[7] == Entry(s + 7) &&
    row[8] == Entry(s + 8) && row[9] == Entry(s + 9) && row[10] == Entry(s + 10) && row[11] == Entry(s + 11) &&
    row[12] == Entry(s + 12) && row[13] == Entry(s + 13) && row[14] == Entry(s + 14) && row[15] == Entry(s + 15)
  }

  lemma RowIsRight(row: seq<bv16>, s: bv8)
    requires IsRow(row, s)
    ensures RowRight(row, s, Entry)
  {
  }

  lemma Row0() ensures RowRight(ROW_0, 0x00, Entry) { RowIsRight(ROW_0, 0x00); }

  lemma Row1() ensures RowRight(ROW_1, 0x10, Entry) { RowIsRight(ROW_1, 0x10); }

  lemma Row2() ensures RowRight(ROW_2, 0x20, Entry) { RowIsRight(ROW_2, 0x20); }

  lemma Row3() ensures RowRight(ROW_3, 0x30, Entry) { RowIsRight(ROW_3, 0x30); }

  lemma Row4() ensures RowRight(ROW_4, 0x40, Entry) { RowIsRight(ROW_4, 0x40); }

  lemma Row5() ensures RowRight(ROW_5, 0x50, Entry) { RowIsRight(ROW_5, 0x50); }

  lemma Row6() ensures RowRight(ROW_6, 0x60, Entry) { RowIsRight(ROW_6, 0x60); }

  lemma Row7() ensures RowRight(ROW_7, 0x70, Entry) { RowIsRight(ROW_7, 0x70); }

  lemma Row8() ensures RowRight(ROW_8, 0x80, Entry) { RowIsRight(ROW_8, 0x80); }

  lemma Row9() ensures RowRight(ROW_9, 0x90, Entry) { RowIsRight(ROW_9, 0x90); }

  lemma RowA() ensures RowRight(ROW_A, 0xA0, Entry) { RowIsRight(ROW_A, 0xA0); }

  lemma RowB() ensures RowRight(ROW_B, 0xB0, Entry) { RowIsRight(ROW_B, 0xB0); }

  lemma RowC() ensures RowRight(ROW_C, 0xC0, Entry) { RowIsRight(ROW_C, 0xC0); }

  lemma RowD() ensures RowRight(ROW_D, 0xD0, Entry) { RowIsRight(ROW_D, 0xD0); }

  lemma RowE() ensures RowRight(ROW_E, 0xE0, Entry) { RowIsRight(ROW_E, 0xE0); }

  lemma RowF() ensures RowRight(ROW_F, 0xF0, Entry) { RowIsRight(ROW_F, 0xF0); }

  lemma TableIsSteps()
    ensures TableRight(ROWS, Entry)
  {
    Row0(); Row1(); Row2(); Row3(); Row4(); Row5(); Row6(); Row7();
    Row8(); Row9(); RowA(); RowB(); RowC(); RowD(); RowE(); RowF();
    TableOfRows(ROW_0, ROW_1, ROW_2, ROW_3, ROW_4, ROW_5, ROW_6, ROW_7,
                ROW_8, ROW_9, ROW_A, ROW_B, ROW_C, ROW_D, ROW_E, ROW_F, Entry);
  }
}
