/** The table-driven CRC-16 of tools/rtu_crc.py refines the bitwise one.

    The two 256-entry tables are kept in rows of eight entries.
 */
module Crc16Table {
  import opened Crc16

  const TABLE_CRC_HI: seq<seq<bv8>> := [
    [0x00, 0xC1, 0x81, 0x40, 0x01, 0xC0, 0x80, 0x41],
    [0x01, 0xC0, 0x80, 0x41, 0x00, 0xC1, 0x81, 0x40],
    [0x01, 0xC0, 0x80, 0x41, 0x00, 0xC1, 0x81, 0x40],
    [0x00, 0xC1, 0x81, 0x40, 0x01, 0xC0, 0x80, 0x41],
    [0x01, 0xC0, 0x80, 0x41, 0x00, 0xC1, 0x81, 0x40],
    [0x00, 0xC1, 0x81, 0x40, 0x01, 0xC0, 0x80, 0x41],
    [0x00, 0xC1, 0x81, 0x40, 0x01, 0xC0, 0x80, 0x41],
    [0x01, 0xC0, 0x80, 0x41, 0x00, 0xC1, 0x81, 0x40],
    [0x01, 0xC0, 0x80, 0x41, 0x00, 0xC1, 0x81, 0x40],
    [0x00, 0xC1, 0x81, 0x40, 0x01, 0xC0, 0x80, 0x41],
    [0x00, 0xC1, 0x81, 0x40, 0x01, 0xC0, 0x80, 0x41],
    [0x01, 0xC0, 0x80, 0x41, 0x00, 0xC1, 0x81, 0x40],
    [0x00, 0xC1, 0x81, 0x40, 0x01, 0xC0, 0x80, 0x41],
    [0x01, 0xC0, 0x80, 0x41, 0x00, 0xC1, 0x81, 0x40],
    [0x01, 0xC0, 0x80, 0x41, 0x00, 0xC1, 0x81, 0x40],
    [0x00, 0xC1, 0x81, 0x40, 0x01, 0xC0, 0x80, 0x41],
    [0x01, 0xC0, 0x80, 0x41, 0x00, 0xC1, 0x81, 0x40],
    [0x00, 0xC1, 0x81, 0x40, 0x01, 0xC0, 0x80, 0x41],
    [0x00, 0xC1, 0x81, 0x40, 0x01, 0xC0, 0x80, 0x41],
    [0x01, 0xC0, 0x80, 0x41, 0x00, 0xC1, 0x81, 0x40],
    [0x00, 0xC1, 0x81, 0x40, 0x01, 0xC0, 0x80, 0x41],
    [0x01, 0xC0, 0x80, 0x41, 0x00, 0xC1, 0x81, 0x40],
    [0x01, 0xC0, 0x80, 0x41, 0x00, 0xC1, 0x81, 0x40],
    [0x00, 0xC1, 0x81, 0x40, 0x01, 0xC0, 0x80, 0x41],
    [0x00, 0xC1, 0x81, 0x40, 0x01, 0xC0, 0x80, 0x41],
    [0x01, 0xC0, 0x80, 0x41, 0x00, 0xC1, 0x81, 0x40],
    [0x01, 0xC0, 0x80, 0x41, 0x00, 0xC1, 0x81, 0x40],
    [0x00, 0xC1, 0x81, 0x40, 0x01, 0xC0, 0x80, 0x41],
    [0x01, 0xC0, 0x80, 0x41, 0x00, 0xC1, 0x81, 0x40],
    [0x00, 0xC1, 0x81, 0x40, 0x01, 0xC0, 0x80, 0x41],
    [0x00, 0xC1, 0x81, 0x40, 0x01, 0xC0, 0x80, 0x41],
    [0x01, 0xC0, 0x80, 0x41, 0x00, 0xC1, 0x81, 0x40]
  ]

  const TABLE_CRC_LO: seq<seq<bv8>> := [
    [0x00, 0xC0, 0xC1, 0x01, 0xC3, 0x03, 0x02, 0xC2],
    [0xC6, 0x06, 0x07, 0xC7, 0x05, 0xC5, 0xC4, 0x04],
    [0xCC, 0x0C, 0x0D, 0xCD, 0x0F, 0xCF, 0xCE, 0x0E],
    [0x0A, 0xCA, 0xCB, 0x0B, 0xC9, 0x09, 0x08, 0xC8],
    [0xD8, 0x18, 0x19, 0xD9, 0x1B, 0xDB, 0xDA, 0x1A],
    [0x1E, 0xDE, 0xDF, 0x1F, 0xDD, 0x1D, 0x1C, 0xDC],
    [0x14, 0xD4, 0xD5, 0x15, 0xD7, 0x17, 0x16, 0xD6],
    [0xD2, 0x12, 0x13, 0xD3, 0x11, 0xD1, 0xD0, 0x10],
    [0xF0, 0x30, 0x31, 0xF1, 0x33, 0xF3, 0xF2, 0x32],
    [0x36, 0xF6, 0xF7, 0x37, 0xF5, 0x35, 0x34, 0xF4],
    [0x3C, 0xFC, 0xFD, 0x3D, 0xFF, 0x3F, 0x3E, 0xFE],
    [0xFA, 0x3A, 0x3B, 0xFB, 0x39, 0xF9, 0xF8, 0x38],
    [0x28, 0xE8, 0xE9, 0x29, 0xEB, 0x2B, 0x2A, 0xEA],
    [0xEE, 0x2E, 0x2F, 0xEF, 0x2D, 0xED, 0xEC, 0x2C],
    [0xE4, 0x24, 0x25, 0xE5, 0x27, 0xE7, 0xE6, 0x26],
    [0x22, 0xE2, 0xE3, 0x23, 0xE1, 0x21, 0x20, 0xE0],
    [0xA0, 0x60, 0x61, 0xA1, 0x63, 0xA3, 0xA2, 0x62],
    [0x66, 0xA6, 0xA7, 0x67, 0xA5, 0x65, 0x64, 0xA4],
    [0x6C, 0xAC, 0xAD, 0x6D, 0xAF, 0x6F, 0x6E, 0xAE],
    [0xAA, 0x6A, 0x6B, 0xAB, 0x69, 0xA9, 0xA8, 0x68],
    [0x78, 0xB8, 0xB9, 0x79, 0xBB, 0x7B, 0x7A, 0xBA],
    [0xBE, 0x7E, 0x7F, 0xBF, 0x7D, 0xBD, 0xBC, 0x7C],
    [0xB4, 0x74, 0x75, 0xB5, 0x77, 0xB7, 0xB6, 0x76],
    [0x72, 0xB2, 0xB3, 0x73, 0xB1, 0x71, 0x70, 0xB0],
    [0x50, 0x90, 0x91, 0x51, 0x93, 0x53, 0x52, 0x92],
    [0x96, 0x56, 0x57, 0x97, 0x55, 0x95, 0x94, 0x54],
    [0x9C, 0x5C, 0x5D, 0x9D, 0x5F, 0x9F, 0x9E, 0x5E],
    [0x5A, 0x9A, 0x9B, 0x5B, 0x99, 0x59, 0x58, 0x98],
    [0x88, 0x48, 0x49, 0x89, 0x4B, 0x8B, 0x8A, 0x4A],
    [0x4E, 0x8E, 0x8F, 0x4F, 0x8D, 0x4D, 0x4C, 0x8C],
    [0x44, 0x84, 0x85, 0x45, 0x87, 0x47, 0x46, 0x86],
    [0x82, 0x42, 0x43, 0x83, 0x41, 0x81, 0x80, 0x40]
  ]

  function TableHi(i: bv8): bv8 {
    TABLE_CRC_HI[(i >> 3) as nat][(i & 7) as nat]
  }

  function TableLo(i: bv8): bv8 {
    TABLE_CRC_LO[(i >> 3) as nat][(i & 7) as nat]
  }

  // ----- the 256 table pairs are eight shifts of their index -----

  function Pair(h: bv8, l: bv8): bv16 {
    h as bv16 | ((l as bv16) << 8)
  }

  predicate RowOk(h: seq<bv8>, l: seq<bv8>, x: bv16) {
    && |h| == |l| == 8
    && Pair(h[0], l[0]) == Steps(x + 0, 8)
    && Pair(h[1], l[1]) == Steps(x + 1, 8)
    && Pair(h[2], l[2]) == Steps(x + 2, 8)
    && Pair(h[3], l[3]) == Steps(x + 3, 8)
    && Pair(h[4], l[4]) == Steps(x + 4, 8)
    && Pair(h[5], l[5]) == Steps(x + 5, 8)
    && Pair(h[6], l[6]) == Steps(x + 6, 8)
    && Pair(h[7], l[7]) == Steps(x + 7, 8)
  }

  // One lemma per table row; each is a computation on constants.
  lemma Row00() ensures |TABLE_CRC_HI| == |TABLE_CRC_LO| == 32 && RowOk(TABLE_CRC_HI[0], TABLE_CRC_LO[0], 0x00) { }
  lemma Row01() ensures |TABLE_CRC_HI| == |TABLE_CRC_LO| == 32 && RowOk(TABLE_CRC_HI[1], TABLE_CRC_LO[1], 0x08) { }
  lemma Row02() ensures |TABLE_CRC_HI| == |TABLE_CRC_LO| == 32 && RowOk(TABLE_CRC_HI[2], TABLE_CRC_LO[2], 0x10) { }
  lemma Row03() ensures |TABLE_CRC_HI| == |TABLE_CRC_LO| == 32 && RowOk(TABLE_CRC_HI[3], TABLE_CRC_LO[3], 0x18) { }
  lemma Row04() ensures |TABLE_CRC_HI| == |TABLE_CRC_LO| == 32 && RowOk(TABLE_CRC_HI[4], TABLE_CRC_LO[4], 0x20) { }
  lemma Row05() ensures |TABLE_CRC_HI| == |TABLE_CRC_LO| == 32 && RowOk(TABLE_CRC_HI[5], TABLE_CRC_LO[5], 0x28) { }
  lemma Row06() ensures |TABLE_CRC_HI| == |TABLE_CRC_LO| == 32 && RowOk(TABLE_CRC_HI[6], TABLE_CRC_LO[6], 0x30) { }
  lemma Row07() ensures |TABLE_CRC_HI| == |TABLE_CRC_LO| == 32 && RowOk(TABLE_CRC_HI[7], TABLE_CRC_LO[7], 0x38) { }
  lemma Row08() ensures |TABLE_CRC_HI| == |TABLE_CRC_LO| == 32 && RowOk(TABLE_CRC_HI[8], TABLE_CRC_LO[8], 0x40) { }
  lemma Row09() ensures |TABLE_CRC_HI| == |TABLE_CRC_LO| == 32 && RowOk(TABLE_CRC_HI[9], TABLE_CRC_LO[9], 0x48) { }
  lemma Row10() ensures |TABLE_CRC_HI| == |TABLE_CRC_LO| == 32 && RowOk(TABLE_CRC_HI[10], TABLE_CRC_LO[10], 0x50) { }
  lemma Row11() ensures |TABLE_CRC_HI| == |TABLE_CRC_LO| == 32 && RowOk(TABLE_CRC_HI[11], TABLE_CRC_LO[11], 0x58) { }
  lemma Row12() ensures |TABLE_CRC_HI| == |TABLE_CRC_LO| == 32 && RowOk(TABLE_CRC_HI[12], TABLE_CRC_LO[12], 0x60) { }
  lemma Row13() ensures |TABLE_CRC_HI| == |TABLE_CRC_LO| == 32 && RowOk(TABLE_CRC_HI[13], TABLE_CRC_LO[13], 0x68) { }
  lemma Row14() ensures |TABLE_CRC_HI| == |TABLE_CRC_LO| == 32 && RowOk(TABLE_CRC_HI[14], TABLE_CRC_LO[14], 0x70) { }
  lemma Row15() ensures |TABLE_CRC_HI| == |TABLE_CRC_LO| == 32 && RowOk(TABLE_CRC_HI[15], TABLE_CRC_LO[15], 0x78) { }
  lemma Row16() ensures |TABLE_CRC_HI| == |TABLE_CRC_LO| == 32 && RowOk(TABLE_CRC_HI[16], TABLE_CRC_LO[16], 0x80) { }
  lemma Row17() ensures |TABLE_CRC_HI| == |TABLE_CRC_LO| == 32 && RowOk(TABLE_CRC_HI[17], TABLE_CRC_LO[17], 0x88) { }
  lemma Row18() ensures |TABLE_CRC_HI| == |TABLE_CRC_LO| == 32 && RowOk(TABLE_CRC_HI[18], TABLE_CRC_LO[18], 0x90) { }
  lemma Row19() ensures |TABLE_CRC_HI| == |TABLE_CRC_LO| == 32 && RowOk(TABLE_CRC_HI[19], TABLE_CRC_LO[19], 0x98) { }
  lemma Row20() ensures |TABLE_CRC_HI| == |TABLE_CRC_LO| == 32 && RowOk(TABLE_CRC_HI[20], TABLE_CRC_LO[20], 0xA0) { }
  lemma Row21() ensures |TABLE_CRC_HI| == |TABLE_CRC_LO| == 32 && RowOk(TABLE_CRC_HI[21], TABLE_CRC_LO[21], 0xA8) { }
  lemma Row22() ensures |TABLE_CRC_HI| == |TABLE_CRC_LO| == 32 && RowOk(TABLE_CRC_HI[22], TABLE_CRC_LO[22], 0xB0) { }
  lemma Row23() ensures |TABLE_CRC_HI| == |TABLE_CRC_LO| == 32 && RowOk(TABLE_CRC_HI[23], TABLE_CRC_LO[23], 0xB8) { }
  lemma Row24() ensures |TABLE_CRC_HI| == |TABLE_CRC_LO| == 32 && RowOk(TABLE_CRC_HI[24], TABLE_CRC_LO[24], 0xC0) { }
  lemma Row25() ensures |TABLE_CRC_HI| == |TABLE_CRC_LO| == 32 && RowOk(TABLE_CRC_HI[25], TABLE_CRC_LO[25], 0xC8) { }
  lemma Row26() ensures |TABLE_CRC_HI| == |TABLE_CRC_LO| == 32 && RowOk(TABLE_CRC_HI[26], TABLE_CRC_LO[26], 0xD0) { }
  lemma Row27() ensures |TABLE_CRC_HI| == |TABLE_CRC_LO| == 32 && RowOk(TABLE_CRC_HI[27], TABLE_CRC_LO[27], 0xD8) { }
  lemma Row28() ensures |TABLE_CRC_HI| == |TABLE_CRC_LO| == 32 && RowOk(TABLE_CRC_HI[28], TABLE_CRC_LO[28], 0xE0) { }
  lemma Row29() ensures |TABLE_CRC_HI| == |TABLE_CRC_LO| == 32 && RowOk(TABLE_CRC_HI[29], TABLE_CRC_LO[29], 0xE8) { }
  lemma Row30() ensures |TABLE_CRC_HI| == |TABLE_CRC_LO| == 32 && RowOk(TABLE_CRC_HI[30], TABLE_CRC_LO[30], 0xF0) { }
  lemma Row31() ensures |TABLE_CRC_HI| == |TABLE_CRC_LO| == 32 && RowOk(TABLE_CRC_HI[31], TABLE_CRC_LO[31], 0xF8) { }

  lemma RowEntry(h: seq<bv8>, l: seq<bv8>, i: bv8)
    requires RowOk(h, l, (i & 0xF8) as bv16)
    ensures Pair(h[(i & 7) as nat], l[(i & 7) as nat]) == Steps(i as bv16, 8)
  {
    hide Pair, Steps;
    SplitIndex(i);
  }

  lemma SplitIndex(i: bv8)
    ensures i as bv16 == (i & 0xF8) as bv16 + (i & 7) as bv16
    ensures i & 7 in {0, 1, 2, 3, 4, 5, 6, 7}
  {
  }

  /** Every table pair is eight bit-steps of its index. */
  lemma EntryOk(i: bv8)
    ensures Pair(TableHi(i), TableLo(i)) == Steps(i as bv16, 8)
  {
    hide Pair, Steps, RowOk;
    var r := i >> 3;
    if r == 0 { Row00(); }
    else if r == 1 { Row01(); }
    else if r == 2 { Row02(); }
    else if r == 3 { Row03(); }
    else if r == 4 { Row04(); }
    else if r == 5 { Row05(); }
    else if r == 6 { Row06(); }
    else if r == 7 { Row07(); }
    else if r == 8 { Row08(); }
    else if r == 9 { Row09(); }
    else if r == 10 { Row10(); }
    else if r == 11 { Row11(); }
    else if r == 12 { Row12(); }
    else if r == 13 { Row13(); }
    else if r == 14 { Row14(); }
    else if r == 15 { Row15(); }
    else if r == 16 { Row16(); }
    else if r == 17 { Row17(); }
    else if r == 18 { Row18(); }
    else if r == 19 { Row19(); }
    else if r == 20 { Row20(); }
    else if r == 21 { Row21(); }
    else if r == 22 { Row22(); }
    else if r == 23 { Row23(); }
    else if r == 24 { Row24(); }
    else if r == 25 { Row25(); }
    else if r == 26 { Row26(); }
    else if r == 27 { Row27(); }
    else if r == 28 { Row28(); }
    else if r == 29 { Row29(); }
    else if r == 30 { Row30(); }
    else if r == 31 { Row31(); }
    RowEntry(TABLE_CRC_HI[(i >> 3) as nat], TABLE_CRC_LO[(i >> 3) as nat], i);
  }

  // ----- the byte loop -----

  /** One table step on the two register halves is one byte of the bitwise form. */
  lemma TableStep(h: bv8, l: bv8, v: bv8)
    ensures Pair(l ^ TableHi(h ^ v), TableLo(h ^ v)) == ByteStep(Pair(h, l), v)
  {
    hide TableHi, TableLo, Steps, Xor, Pair;
    var i := h ^ v;
    EntryOk(i);
    PairXor(h, l, v);
    StepsXor(i as bv16, (l as bv16) << 8, 8);
    StepsShift(l);
    PairLow(TableHi(i), TableLo(i), l);
  }

  lemma PairXor(h: bv8, l: bv8, v: bv8)
    ensures Xor(Pair(h, l), v as bv16) == Xor((h ^ v) as bv16, (l as bv16) << 8)
  {
  }

  lemma PairLow(h: bv8, l: bv8, x: bv8)
    ensures Xor(Pair(h, l), x as bv16) == Pair(x ^ h, l)
  {
  }

  /** The register with its bytes exchanged: tools/rtu_crc.py calls the byte sent first `crc_hi`. */
  function Swapped(a: bv16): bv16 {
    ((LowByte(a) as bv16) << 8) | HighByte(a) as bv16
  }

  lemma PairSwapped(h: bv8, l: bv8)
    ensures Swapped(Pair(h, l)) == ((h as bv16) << 8) | l as bv16
  {
  }

  /** `crc16` of tools/rtu_crc.py. */
  method TableCrc16(buffer: seq<bv8>) returns (r: bv16)
    ensures r == Swapped(Crc(buffer))
  {
    hide Swapped, TableHi, TableLo, ByteStep, Pair;
    var crc_hi: bv8 := 0xFF;
    var crc_lo: bv8 := 0xFF;
    PairOnes();
    for n := 0 to |buffer|
      invariant Run(Pair(crc_hi, crc_lo), buffer[n..]) == Crc(buffer)
    {
      var v := buffer[n];
      TableStep(crc_hi, crc_lo, v);
      var i := crc_hi ^ v;
      crc_hi := crc_lo ^ TableHi(i);
      crc_lo := TableLo(i);
      assert buffer[n..][1..] == buffer[n + 1..];
    }
    PairSwapped(crc_hi, crc_lo);
    return ((crc_hi as bv16) << 8) | crc_lo as bv16;
  }

  lemma PairOnes()
    ensures Pair(0xFF, 0xFF) == INIT
  {
  }

  /** So the result's bytes, high first, are the result list of the bitwise form. */
  lemma SwappedBytes(a: bv16)
    ensures HighByte(Swapped(a)) == LowByte(a) && LowByte(Swapped(a)) == HighByte(a)
  {
  }
}
