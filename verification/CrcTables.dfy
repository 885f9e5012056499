/** The lookup tables of crcsw.c, four entries a row as in the source of the CRC-32 table, and
    the fact that each entry is eight division steps applied to its index. */
module CrcTables {

  /** One step of the reflected division: shift right, subtract the polynomial if a 1 falls out. */
  function Step(poly: bv32, x: bv32): bv32 {
    if x & 1 != 0 then (x >> 1) ^ poly else x >> 1
  }

  function Steps(poly: bv32, x: bv32, k: nat): bv32
    decreases k
  {
    if k == 0 then x else Steps(poly, Step(poly, x), k - 1)
  }

  const CRC32_REFLECTED: bv32 := 0xEDB8_8320
  const CRC16_REFLECTED: bv32 := 0x0000_A001

  type Row = (bv32, bv32, bv32, bv32)

  function Eight(poly: bv32, x: bv32): bv32 {
    Step(poly, Step(poly, Step(poly, Step(poly, Step(poly, Step(poly, Step(poly, Step(poly, x))))))))
  }

  lemma EightIsSteps(poly: bv32, x: bv32)
    ensures Eight(poly, x) == Steps(poly, x, 8)
  {
    hide Step;
    var x4 := Step(poly, Step(poly, Step(poly, Step(poly, x))));
    assert Steps(poly, x, 8) == Steps(poly, Step(poly, Step(poly, x)), 6) == Steps(poly, x4, 4);
    assert Steps(poly, x4, 4) == Steps(poly, Step(poly, Step(poly, x4)), 2);
  }

  function Index(r: bv8): bv32 {
    (r as bv32) << 2
  }

  predicate RowIs(poly: bv32, row: Row, at: bv32) {
    row == (Eight(poly, at), Eight(poly, at | 1), Eight(poly, at | 2), Eight(poly, at | 3))
  }

  function Crc32Block0(r: bv8): Row {
    match r
    case 0 => (0x0000_0000, 0x7707_3096, 0xEE0E_612C, 0x9909_51BA)
    case 1 => (0x076D_C419, 0x706A_F48F, 0xE963_A535, 0x9E64_95A3)
    case 2 => (0x0EDB_8832, 0x79DC_B8A4, 0xE0D5_E91E, 0x97D2_D988)
    case 3 => (0x09B6_4C2B, 0x7EB1_7CBD, 0xE7B8_2D07, 0x90BF_1D91)
    case 4 => (0x1DB7_1064, 0x6AB0_20F2, 0xF3B9_7148, 0x84BE_41DE)
    case 5 => (0x1ADA_D47D, 0x6DDD_E4EB, 0xF4D4_B551, 0x83D3_85C7)
    case 6 => (0x136C_9856, 0x646B_A8C0, 0xFD62_F97A, 0x8A65_C9EC)
    case _ => (0x1401_5C4F, 0x6306_6CD9, 0xFA0F_3D63, 0x8D08_0DF5)
  }

  function Crc32Block1(r: bv8): Row {
    match r
    case 0 => (0x3B6E_20C8, 0x4C69_105E, 0xD560_41E4, 0xA267_7172)
    case 1 => (0x3C03_E4D1, 0x4B04_D447, 0xD20D_85FD, 0xA50A_B56B)
    case 2 => (0x35B5_A8FA, 0x42B2_986C, 0xDBBB_C9D6, 0xACBC_F940)
    case 3 => (0x32D8_6CE3, 0x45DF_5C75, 0xDCD6_0DCF, 0xABD1_3D59)
    case 4 => (0x26D9_30AC, 0x51DE_003A, 0xC8D7_5180, 0xBFD0_6116)
    case 5 => (0x21B4_F4B5, 0x56B3_C423, 0xCFBA_9599, 0xB8BD_A50F)
    case 6 => (0x2802_B89E, 0x5F05_8808, 0xC60C_D9B2, 0xB10B_E924)
    case _ => (0x2F6F_7C87, 0x5868_4C11, 0xC161_1DAB, 0xB666_2D3D)
  }

  function Crc32Block2(r: bv8): Row {
    match r
    case 0 => (0x76DC_4190, 0x01DB_7106, 0x98D2_20BC, 0xEFD5_102A)
    case 1 => (0x71B1_8589, 0x06B6_B51F, 0x9FBF_E4A5, 0xE8B8_D433)
    case 2 => (0x7807_C9A2, 0x0F00_F934, 0x9609_A88E, 0xE10E_9818)
    case 3 => (0x7F6A_0DBB, 0x086D_3D2D, 0x9164_6C97, 0xE663_5C01)
    case 4 => (0x6B6B_51F4, 0x1C6C_6162, 0x8565_30D8, 0xF262_004E)
    case 5 => (0x6C06_95ED, 0x1B01_A57B, 0x8208_F4C1, 0xF50F_C457)
    case 6 => (0x65B0_D9C6, 0x12B7_E950, 0x8BBE_B8EA, 0xFCB9_887C)
    case _ => (0x62DD_1DDF, 0x15DA_2D49, 0x8CD3_7CF3, 0xFBD4_4C65)
  }

  function Crc32Block3(r: bv8): Row {
    match r
    case 0 => (0x4DB2_6158, 0x3AB5_51CE, 0xA3BC_0074, 0xD4BB_30E2)
    case 1 => (0x4ADF_A541, 0x3DD8_95D7, 0xA4D1_C46D, 0xD3D6_F4FB)
    case 2 => (0x4369_E96A, 0x346E_D9FC, 0xAD67_8846, 0xDA60_B8D0)
    case 3 => (0x4404_2D73, 0x3303_1DE5, 0xAA0A_4C5F, 0xDD0D_7CC9)
    case 4 => (0x5005_713C, 0x2702_41AA, 0xBE0B_1010, 0xC90C_2086)
    case 5 => (0x5768_B525, 0x206F_85B3, 0xB966_D409, 0xCE61_E49F)
    case 6 => (0x5EDE_F90E, 0x29D9_C998, 0xB0D0_9822, 0xC7D7_A8B4)
    case _ => (0x59B3_3D17, 0x2EB4_0D81, 0xB7BD_5C3B, 0xC0BA_6CAD)
  }

  function Crc32Block4(r: bv8): Row {
    match r
    case 0 => (0xEDB8_8320, 0x9ABF_B3B6, 0x03B6_E20C, 0x74B1_D29A)
    case 1 => (0xEAD5_4739, 0x9DD2_77AF, 0x04DB_2615, 0x73DC_1683)
    case 2 => (0xE363_0B12, 0x9464_3B84, 0x0D6D_6A3E, 0x7A6A_5AA8)
    case 3 => (0xE40E_CF0B, 0x9309_FF9D, 0x0A00_AE27, 0x7D07_9EB1)
    case 4 => (0xF00F_9344, 0x8708_A3D2, 0x1E01_F268, 0x6906_C2FE)
    case 5 => (0xF762_575D, 0x8065_67CB, 0x196C_3671, 0x6E6B_06E7)
    case 6 => (0xFED4_1B76, 0x89D3_2BE0, 0x10DA_7A5A, 0x67DD_4ACC)
    case _ => (0xF9B9_DF6F, 0x8EBE_EFF9, 0x17B7_BE43, 0x60B0_8ED5)
  }

  function Crc32Block5(r: bv8): Row {
    match r
    case 0 => (0xD6D6_A3E8, 0xA1D1_937E, 0x38D8_C2C4, 0x4FDF_F252)
    case 1 => (0xD1BB_67F1, 0xA6BC_5767, 0x3FB5_06DD, 0x48B2_364B)
    case 2 => (0xD80D_2BDA, 0xAF0A_1B4C, 0x3603_4AF6, 0x4104_7A60)
    case 3 => (0xDF60_EFC3, 0xA867_DF55, 0x316E_8EEF, 0x4669_BE79)
    case 4 => (0xCB61_B38C, 0xBC66_831A, 0x256F_D2A0, 0x5268_E236)
    case 5 => (0xCC0C_7795, 0xBB0B_4703, 0x2202_16B9, 0x5505_262F)
    case 6 => (0xC5BA_3BBE, 0xB2BD_0B28, 0x2BB4_5A92, 0x5CB3_6A04)
    case _ => (0xC2D7_FFA7, 0xB5D0_CF31, 0x2CD9_9E8B, 0x5BDE_AE1D)
  }

  function Crc32Block6(r: bv8): Row {
    match r
    case 0 => (0x9B64_C2B0, 0xEC63_F226, 0x756A_A39C, 0x026D_930A)
    case 1 => (0x9C09_06A9, 0xEB0E_363F, 0x7207_6785, 0x0500_5713)
    case 2 => (0x95BF_4A82, 0xE2B8_7A14, 0x7BB1_2BAE, 0x0CB6_1B38)
    case 3 => (0x92D2_8E9B, 0xE5D5_BE0D, 0x7CDC_EFB7, 0x0BDB_DF21)
    case 4 => (0x86D3_D2D4, 0xF1D4_E242, 0x68DD_B3F8, 0x1FDA_836E)
    case 5 => (0x81BE_16CD, 0xF6B9_265B, 0x6FB0_77E1, 0x18B7_4777)
    case 6 => (0x8808_5AE6, 0xFF0F_6A70, 0x6606_3BCA, 0x1101_0B5C)
    case _ => (0x8F65_9EFF, 0xF862_AE69, 0x616B_FFD3, 0x166C_CF45)
  }

  function Crc32Block7(r: bv8): Row {
    match r
    case 0 => (0xA00A_E278, 0xD70D_D2EE, 0x4E04_8354, 0x3903_B3C2)
    case 1 => (0xA767_2661, 0xD060_16F7, 0x4969_474D, 0x3E6E_77DB)
    case 2 => (0xAED1_6A4A, 0xD9D6_5ADC, 0x40DF_0B66, 0x37D8_3BF0)
    case 3 => (0xA9BC_AE53, 0xDEBB_9EC5, 0x47B2_CF7F, 0x30B5_FFE9)
    case 4 => (0xBDBD_F21C, 0xCABA_C28A, 0x53B3_9330, 0x24B4_A3A6)
    case 5 => (0xBAD0_3605, 0xCDD7_0693, 0x54DE_5729, 0x23D9_67BF)
    case 6 => (0xB366_7A2E, 0xC461_4AB8, 0x5D68_1B02, 0x2A6F_2B94)
    case _ => (0xB40B_BE37, 0xC30C_8EA1, 0x5A05_DF1B, 0x2D02_EF8D)
  }

  function Crc32Row(r: bv8): Row {
    var low := r & 7;
    match r >> 3
    case 0 => Crc32Block0(low)
    case 1 => Crc32Block1(low)
    case 2 => Crc32Block2(low)
    case 3 => Crc32Block3(low)
    case 4 => Crc32Block4(low)
    case 5 => Crc32Block5(low)
    case 6 => Crc32Block6(low)
    case _ => Crc32Block7(low)
  }

  function Crc32Table(idx: bv8): bv32 {
    Column(Crc32Row(idx >> 2), idx & 3)
  }

  function Crc16Block0(r: bv8): Row {
    match r
    case 0 => (0x0000, 0xC0C1, 0xC181, 0x0140)
    case 1 => (0xC301, 0x03C0, 0x0280, 0xC241)
    case 2 => (0xC601, 0x06C0, 0x0780, 0xC741)
    case 3 => (0x0500, 0xC5C1, 0xC481, 0x0440)
    case 4 => (0xCC01, 0x0CC0, 0x0D80, 0xCD41)
    case 5 => (0x0F00, 0xCFC1, 0xCE81, 0x0E40)
    case 6 => (0x0A00, 0xCAC1, 0xCB81, 0x0B40)
    case _ => (0xC901, 0x09C0, 0x0880, 0xC841)
  }

  function Crc16Block1(r: bv8): Row {
    match r
    case 0 => (0xD801, 0x18C0, 0x1980, 0xD941)
    case 1 => (0x1B00, 0xDBC1, 0xDA81, 0x1A40)
    case 2 => (0x1E00, 0xDEC1, 0xDF81, 0x1F40)
    case 3 => (0xDD01, 0x1DC0, 0x1C80, 0xDC41)
    case 4 => (0x1400, 0xD4C1, 0xD581, 0x1540)
    case 5 => (0xD701, 0x17C0, 0x1680, 0xD641)
    case 6 => (0xD201, 0x12C0, 0x1380, 0xD341)
    case _ => (0x1100, 0xD1C1, 0xD081, 0x1040)
  }

  function Crc16Block2(r: bv8): Row {
    match r
    case 0 => (0xF001, 0x30C0, 0x3180, 0xF141)
    case 1 => (0x3300, 0xF3C1, 0xF281, 0x3240)
    case 2 => (0x3600, 0xF6C1, 0xF781, 0x3740)
    case 3 => (0xF501, 0x35C0, 0x3480, 0xF441)
    case 4 => (0x3C00, 0xFCC1, 0xFD81, 0x3D40)
    case 5 => (0xFF01, 0x3FC0, 0x3E80, 0xFE41)
    case 6 => (0xFA01, 0x3AC0, 0x3B80, 0xFB41)
    case _ => (0x3900, 0xF9C1, 0xF881, 0x3840)
  }

  function Crc16Block3(r: bv8): Row {
    match r
    case 0 => (0x2800, 0xE8C1, 0xE981, 0x2940)
    case 1 => (0xEB01, 0x2BC0, 0x2A80, 0xEA41)
    case 2 => (0xEE01, 0x2EC0, 0x2F80, 0xEF41)
    case 3 => (0x2D00, 0xEDC1, 0xEC81, 0x2C40)
    case 4 => (0xE401, 0x24C0, 0x2580, 0xE541)
    case 5 => (0x2700, 0xE7C1, 0xE681, 0x2640)
    case 6 => (0x2200, 0xE2C1, 0xE381, 0x2340)
    case _ => (0xE101, 0x21C0, 0x2080, 0xE041)
  }

  function Crc16Block4(r: bv8): Row {
    match r
    case 0 => (0xA001, 0x60C0, 0x6180, 0xA141)
    case 1 => (0x6300, 0xA3C1, 0xA281, 0x6240)
    case 2 => (0x6600, 0xA6C1, 0xA781, 0x6740)
    case 3 => (0xA501, 0x65C0, 0x6480, 0xA441)
    case 4 => (0x6C00, 0xACC1, 0xAD81, 0x6D40)
    case 5 => (0xAF01, 0x6FC0, 0x6E80, 0xAE41)
    case 6 => (0xAA01, 0x6AC0, 0x6B80, 0xAB41)
    case _ => (0x6900, 0xA9C1, 0xA881, 0x6840)
  }

  function Crc16Block5(r: bv8): Row {
    match r
    case 0 => (0x7800, 0xB8C1, 0xB981, 0x7940)
    case 1 => (0xBB01, 0x7BC0, 0x7A80, 0xBA41)
    case 2 => (0xBE01, 0x7EC0, 0x7F80, 0xBF41)
    case 3 => (0x7D00, 0xBDC1, 0xBC81, 0x7C40)
    case 4 => (0xB401, 0x74C0, 0x7580, 0xB541)
    case 5 => (0x7700, 0xB7C1, 0xB681, 0x7640)
    case 6 => (0x7200, 0xB2C1, 0xB381, 0x7340)
    case _ => (0xB101, 0x71C0, 0x7080, 0xB041)
  }

  function Crc16Block6(r: bv8): Row {
    match r
    case 0 => (0x5000, 0x90C1, 0x9181, 0x5140)
    case 1 => (0x9301, 0x53C0, 0x5280, 0x9241)
    case 2 => (0x9601, 0x56C0, 0x5780, 0x9741)
    case 3 => (0x5500, 0x95C1, 0x9481, 0x5440)
    case 4 => (0x9C01, 0x5CC0, 0x5D80, 0x9D41)
    case 5 => (0x5F00, 0x9FC1, 0x9E81, 0x5E40)
    case 6 => (0x5A00, 0x9AC1, 0x9B81, 0x5B40)
    case _ => (0x9901, 0x59C0, 0x5880, 0x9841)
  }

  function Crc16Block7(r: bv8): Row {
    match r
    case 0 => (0x8801, 0x48C0, 0x4980, 0x8941)
    case 1 => (0x4B00, 0x8BC1, 0x8A81, 0x4A40)
    case 2 => (0x4E00, 0x8EC1, 0x8F81, 0x4F40)
    case 3 => (0x8D01, 0x4DC0, 0x4C80, 0x8C41)
    case 4 => (0x4400, 0x84C1, 0x8581, 0x4540)
    case 5 => (0x8701, 0x47C0, 0x4680, 0x8641)
    case 6 => (0x8201, 0x42C0, 0x4380, 0x8341)
    case _ => (0x4100, 0x81C1, 0x8081, 0x4040)
  }

  function Crc16Row(r: bv8): Row {
    var low := r & 7;
    match r >> 3
    case 0 => Crc16Block0(low)
    case 1 => Crc16Block1(low)
    case 2 => Crc16Block2(low)
    case 3 => Crc16Block3(low)
    case 4 => Crc16Block4(low)
    case 5 => Crc16Block5(low)
    case 6 => Crc16Block6(low)
    case _ => Crc16Block7(low)
  }

  function Crc16Table(idx: bv8): bv32 {
    Column(Crc16Row(idx >> 2), idx & 3)
  }

  function Column(row: Row, c: bv8): bv32 {
    match c
    case 0 => row.0
    case 1 => row.1
    case 2 => row.2
    case _ => row.3
  }

  lemma Crc32RowIs(r: bv8)
    requires r < 64
    ensures RowIs(CRC32_REFLECTED, Crc32Row(r), Index(r))
  {
  }

  /** Every entry of the table is its index after eight division steps. */
  lemma Crc32TableIs(idx: bv8)
    ensures Crc32Table(idx) == Steps(CRC32_REFLECTED, idx as bv32, 8)
  {
    hide Eight, Crc32Row, Steps;
    var r, c := idx >> 2, idx & 3;
    Crc32RowIs(r);
    IndexParts(idx);
    EightIsSteps(CRC32_REFLECTED, idx as bv32);
  }

  lemma Crc16RowIs(r: bv8)
    requires r < 64
    ensures RowIs(CRC16_REFLECTED, Crc16Row(r), Index(r))
  {
  }

  /** Every entry of the table is its index after eight division steps. */
  lemma Crc16TableIs(idx: bv8)
    ensures Crc16Table(idx) == Steps(CRC16_REFLECTED, idx as bv32, 8)
  {
    hide Eight, Crc16Row, Steps;
    var r, c := idx >> 2, idx & 3;
    Crc16RowIs(r);
    IndexParts(idx);
    EightIsSteps(CRC16_REFLECTED, idx as bv32);
  }

  lemma IndexParts(idx: bv8)
    ensures idx >> 2 < 64 && idx & 3 < 4
    ensures idx & 3 == 0 ==> idx as bv32 == Index(idx >> 2)
    ensures idx & 3 == 1 ==> idx as bv32 == Index(idx >> 2) | 1
    ensures idx & 3 == 2 ==> idx as bv32 == Index(idx >> 2) | 2
    ensures idx & 3 == 3 ==> idx as bv32 == Index(idx >> 2) | 3
  {
  }
}
