/** crc8, crc16 and crc32c of lib/crc.c. All three are reflected divisions that differ in the polynomial and
    the width of the register; a register is modelled as the low bits of a 32-bit vector. */
module Crc {
  datatype Code = Crc8 | Crc16 | Crc32c

  // x^8 + x^7 + x^6 + x^4 + x^2 + 1, x^16 + x^15 + x^2 + 1, and the Castagnoli polynomial 0x1EDC6F41, all reflected.
  // (The comment above crc32Table names another polynomial than the one the table is made of.)
  function Poly(k: Code): bv32 {
    match k
    case Crc8 => 0xAB
    case Crc16 => 0xA001
    case Crc32c => 0x82F63B78
  }

  function Mask(k: Code): bv32 {
    match k
    case Crc8 => 0xFF
    case Crc16 => 0xFFFF
    case Crc32c => 0xFFFF_FFFF
  }

  /** The register holds no bits beyond its width. */
  predicate Fits(k: Code, c: bv32) {
    c & !Mask(k) == 0
  }

  /** One bit of reflected polynomial division. */
  function Shift(p: bv32, c: bv32): bv32 {
    if c & 1 == 1 then (c >> 1) ^ p else c >> 1
  }

  function Shift4(p: bv32, c: bv32): bv32 {
    Shift(p, Shift(p, Shift(p, Shift(p, c))))
  }

  function Shift8(p: bv32, c: bv32): bv32 {
    Shift4(p, Shift4(p, c))
  }

  // ----- the tables, sixteen entries a row -----

  function Row8(r: nat): (row: seq<bv32>)
    requires r < 16
    ensures |row| == 16
  {
    match r
    case 0 => [0x00, 0xF7, 0xB9, 0x4E, 0x25, 0xD2, 0x9C, 0x6B, 0x4A, 0xBD, 0xF3, 0x04, 0x6F, 0x98, 0xD6, 0x21]
    case 1 => [0x94, 0x63, 0x2D, 0xDA, 0xB1, 0x46, 0x08, 0xFF, 0xDE, 0x29, 0x67, 0x90, 0xFB, 0x0C, 0x42, 0xB5]
    case 2 => [0x7F, 0x88, 0xC6, 0x31, 0x5A, 0xAD, 0xE3, 0x14, 0x35, 0xC2, 0x8C, 0x7B, 0x10, 0xE7, 0xA9, 0x5E]
    case 3 => [0xEB, 0x1C, 0x52, 0xA5, 0xCE, 0x39, 0x77, 0x80, 0xA1, 0x56, 0x18, 0xEF, 0x84, 0x73, 0x3D, 0xCA]
    case 4 => [0xFE, 0x09, 0x47, 0xB0, 0xDB, 0x2C, 0x62, 0x95, 0xB4, 0x43, 0x0D, 0xFA, 0x91, 0x66, 0x28, 0xDF]
    case 5 => [0x6A, 0x9D, 0xD3, 0x24, 0x4F, 0xB8, 0xF6, 0x01, 0x20, 0xD7, 0x99, 0x6E, 0x05, 0xF2, 0xBC, 0x4B]
    case 6 => [0x81, 0x76, 0x38, 0xCF, 0xA4, 0x53, 0x1D, 0xEA, 0xCB, 0x3C, 0x72, 0x85, 0xEE, 0x19, 0x57, 0xA0]
    case 7 => [0x15, 0xE2, 0xAC, 0x5B, 0x30, 0xC7, 0x89, 0x7E, 0x5F, 0xA8, 0xE6, 0x11, 0x7A, 0x8D, 0xC3, 0x34]
    case 8 => [0xAB, 0x5C, 0x12, 0xE5, 0x8E, 0x79, 0x37, 0xC0, 0xE1, 0x16, 0x58, 0xAF, 0xC4, 0x33, 0x7D, 0x8A]
    case 9 => [0x3F, 0xC8, 0x86, 0x71, 0x1A, 0xED, 0xA3, 0x54, 0x75, 0x82, 0xCC, 0x3B, 0x50, 0xA7, 0xE9, 0x1E]
    case 10 => [0xD4, 0x23, 0x6D, 0x9A, 0xF1, 0x06, 0x48, 0xBF, 0x9E, 0x69, 0x27, 0xD0, 0xBB, 0x4C, 0x02, 0xF5]
    case 11 => [0x40, 0xB7, 0xF9, 0x0E, 0x65, 0x92, 0xDC, 0x2B, 0x0A, 0xFD, 0xB3, 0x44, 0x2F, 0xD8, 0x96, 0x61]
    case 12 => [0x55, 0xA2, 0xEC, 0x1B, 0x70, 0x87, 0xC9, 0x3E, 0x1F, 0xE8, 0xA6, 0x51, 0x3A, 0xCD, 0x83, 0x74]
    case 13 => [0xC1, 0x36, 0x78, 0x8F, 0xE4, 0x13, 0x5D, 0xAA, 0x8B, 0x7C, 0x32, 0xC5, 0xAE, 0x59, 0x17, 0xE0]
    case 14 => [0x2A, 0xDD, 0x93, 0x64, 0x0F, 0xF8, 0xB6, 0x41, 0x60, 0x97, 0xD9, 0x2E, 0x45, 0xB2, 0xFC, 0x0B]
    case _ => [0xBE, 0x49, 0x07, 0xF0, 0x9B, 0x6C, 0x22, 0xD5, 0xF4, 0x03, 0x4D, 0xBA, 0xD1, 0x26, 0x68, 0x9F]
  }

  function Row16(r: nat): (row: seq<bv32>)
    requires r < 16
    ensures |row| == 16
  {
    match r
    case 0 => [0x0000, 0xC0C1, 0xC181, 0x0140, 0xC301, 0x03C0, 0x0280, 0xC241, 0xC601, 0x06C0, 0x0780, 0xC741, 0x0500, 0xC5C1, 0xC481, 0x0440]
    case 1 => [0xCC01, 0x0CC0, 0x0D80, 0xCD41, 0x0F00, 0xCFC1, 0xCE81, 0x0E40, 0x0A00, 0xCAC1, 0xCB81, 0x0B40, 0xC901, 0x09C0, 0x0880, 0xC841]
    case 2 => [0xD801, 0x18C0, 0x1980, 0xD941, 0x1B00, 0xDBC1, 0xDA81, 0x1A40, 0x1E00, 0xDEC1, 0xDF81, 0x1F40, 0xDD01, 0x1DC0, 0x1C80, 0xDC41]
    case 3 => [0x1400, 0xD4C1, 0xD581, 0x1540, 0xD701, 0x17C0, 0x1680, 0xD641, 0xD201, 0x12C0, 0x1380, 0xD341, 0x1100, 0xD1C1, 0xD081, 0x1040]
    case 4 => [0xF001, 0x30C0, 0x3180, 0xF141, 0x3300, 0xF3C1, 0xF281, 0x3240, 0x3600, 0xF6C1, 0xF781, 0x3740, 0xF501, 0x35C0, 0x3480, 0xF441]
    case 5 => [0x3C00, 0xFCC1, 0xFD81, 0x3D40, 0xFF01, 0x3FC0, 0x3E80, 0xFE41, 0xFA01, 0x3AC0, 0x3B80, 0xFB41, 0x3900, 0xF9C1, 0xF881, 0x3840]
    case 6 => [0x2800, 0xE8C1, 0xE981, 0x2940, 0xEB01, 0x2BC0, 0x2A80, 0xEA41, 0xEE01, 0x2EC0, 0x2F80, 0xEF41, 0x2D00, 0xEDC1, 0xEC81, 0x2C40]
    case 7 => [0xE401, 0x24C0, 0x2580, 0xE541, 0x2700, 0xE7C1, 0xE681, 0x2640, 0x2200, 0xE2C1, 0xE381, 0x2340, 0xE101, 0x21C0, 0x2080, 0xE041]
    case 8 => [0xA001, 0x60C0, 0x6180, 0xA141, 0x6300, 0xA3C1, 0xA281, 0x6240, 0x6600, 0xA6C1, 0xA781, 0x6740, 0xA501, 0x65C0, 0x6480, 0xA441]
    case 9 => [0x6C00, 0xACC1, 0xAD81, 0x6D40, 0xAF01, 0x6FC0, 0x6E80, 0xAE41, 0xAA01, 0x6AC0, 0x6B80, 0xAB41, 0x6900, 0xA9C1, 0xA881, 0x6840]
    case 10 => [0x7800, 0xB8C1, 0xB981, 0x7940, 0xBB01, 0x7BC0, 0x7A80, 0xBA41, 0xBE01, 0x7EC0, 0x7F80, 0xBF41, 0x7D00, 0xBDC1, 0xBC81, 0x7C40]
    case 11 => [0xB401, 0x74C0, 0x7580, 0xB541, 0x7700, 0xB7C1, 0xB681, 0x7640, 0x7200, 0xB2C1, 0xB381, 0x7340, 0xB101, 0x71C0, 0x7080, 0xB041]
    case 12 => [0x5000, 0x90C1, 0x9181, 0x5140, 0x9301, 0x53C0, 0x5280, 0x9241, 0x9601, 0x56C0, 0x5780, 0x9741, 0x5500, 0x95C1, 0x9481, 0x5440]
    case 13 => [0x9C01, 0x5CC0, 0x5D80, 0x9D41, 0x5F00, 0x9FC1, 0x9E81, 0x5E40, 0x5A00, 0x9AC1, 0x9B81, 0x5B40, 0x9901, 0x59C0, 0x5880, 0x9841]
    case 14 => [0x8801, 0x48C0, 0x4980, 0x8941, 0x4B00, 0x8BC1, 0x8A81, 0x4A40, 0x4E00, 0x8EC1, 0x8F81, 0x4F40, 0x8D01, 0x4DC0, 0x4C80, 0x8C41]
    case _ => [0x4400, 0x84C1, 0x8581, 0x4540, 0x8701, 0x47C0, 0x4680, 0x8641, 0x8201, 0x42C0, 0x4380, 0x8341, 0x4100, 0x81C1, 0x8081, 0x4040]
  }

  function Row32(r: nat): (row: seq<bv32>)
    requires r < 16
    ensures |row| == 16
  {
    match r
    case 0 => [
      0x00000000, 0xF26B8303, 0xE13B70F7, 0x1350F3F4, 0xC79A971F, 0x35F1141C, 0x26A1E7E8, 0xD4CA64EB,
      0x8AD958CF, 0x78B2DBCC, 0x6BE22838, 0x9989AB3B, 0x4D43CFD0, 0xBF284CD3, 0xAC78BF27, 0x5E133C24]
    case 1 => [
      0x105EC76F, 0xE235446C, 0xF165B798, 0x030E349B, 0xD7C45070, 0x25AFD373, 0x36FF2087, 0xC494A384,
      0x9A879FA0, 0x68EC1CA3, 0x7BBCEF57, 0x89D76C54, 0x5D1D08BF, 0xAF768BBC, 0xBC267848, 0x4E4DFB4B]
    case 2 => [
      0x20BD8EDE, 0xD2D60DDD, 0xC186FE29, 0x33ED7D2A, 0xE72719C1, 0x154C9AC2, 0x061C6936, 0xF477EA35,
      0xAA64D611, 0x580F5512, 0x4B5FA6E6, 0xB93425E5, 0x6DFE410E, 0x9F95C20D, 0x8CC531F9, 0x7EAEB2FA]
    case 3 => [
      0x30E349B1, 0xC288CAB2, 0xD1D83946, 0x23B3BA45, 0xF779DEAE, 0x05125DAD, 0x1642AE59, 0xE4292D5A,
      0xBA3A117E, 0x4851927D, 0x5B016189, 0xA96AE28A, 0x7DA08661, 0x8FCB0562, 0x9C9BF696, 0x6EF07595]
    case 4 => [
      0x417B1DBC, 0xB3109EBF, 0xA0406D4B, 0x522BEE48, 0x86E18AA3, 0x748A09A0, 0x67DAFA54, 0x95B17957,
      0xCBA24573, 0x39C9C670, 0x2A993584, 0xD8F2B687, 0x0C38D26C, 0xFE53516F, 0xED03A29B, 0x1F682198]
    case 5 => [
      0x5125DAD3, 0xA34E59D0, 0xB01EAA24, 0x42752927, 0x96BF4DCC, 0x64D4CECF, 0x77843D3B, 0x85EFBE38,
      0xDBFC821C, 0x2997011F, 0x3AC7F2EB, 0xC8AC71E8, 0x1C661503, 0xEE0D9600, 0xFD5D65F4, 0x0F36E6F7]
    case 6 => [
      0x61C69362, 0x93AD1061, 0x80FDE395, 0x72966096, 0xA65C047D, 0x5437877E, 0x4767748A, 0xB50CF789,
      0xEB1FCBAD, 0x197448AE, 0x0A24BB5A, 0xF84F3859, 0x2C855CB2, 0xDEEEDFB1, 0xCDBE2C45, 0x3FD5AF46]
    case 7 => [
      0x7198540D, 0x83F3D70E, 0x90A324FA, 0x62C8A7F9, 0xB602C312, 0x44694011, 0x5739B3E5, 0xA55230E6,
      0xFB410CC2, 0x092A8FC1, 0x1A7A7C35, 0xE811FF36, 0x3CDB9BDD, 0xCEB018DE, 0xDDE0EB2A, 0x2F8B6829]
    case 8 => [
      0x82F63B78, 0x709DB87B, 0x63CD4B8F, 0x91A6C88C, 0x456CAC67, 0xB7072F64, 0xA457DC90, 0x563C5F93,
      0x082F63B7, 0xFA44E0B4, 0xE9141340, 0x1B7F9043, 0xCFB5F4A8, 0x3DDE77AB, 0x2E8E845F, 0xDCE5075C]
    case 9 => [
      0x92A8FC17, 0x60C37F14, 0x73938CE0, 0x81F80FE3, 0x55326B08, 0xA759E80B, 0xB4091BFF, 0x466298FC,
      0x1871A4D8, 0xEA1A27DB, 0xF94AD42F, 0x0B21572C, 0xDFEB33C7, 0x2D80B0C4, 0x3ED04330, 0xCCBBC033]
    case 10 => [
      0xA24BB5A6, 0x502036A5, 0x4370C551, 0xB11B4652, 0x65D122B9, 0x97BAA1BA, 0x84EA524E, 0x7681D14D,
      0x2892ED69, 0xDAF96E6A, 0xC9A99D9E, 0x3BC21E9D, 0xEF087A76, 0x1D63F975, 0x0E330A81, 0xFC588982]
    case 11 => [
      0xB21572C9, 0x407EF1CA, 0x532E023E, 0xA145813D, 0x758FE5D6, 0x87E466D5, 0x94B49521, 0x66DF1622,
      0x38CC2A06, 0xCAA7A905, 0xD9F75AF1, 0x2B9CD9F2, 0xFF56BD19, 0x0D3D3E1A, 0x1E6DCDEE, 0xEC064EED]
    case 12 => [
      0xC38D26C4, 0x31E6A5C7, 0x22B65633, 0xD0DDD530, 0x0417B1DB, 0xF67C32D8, 0xE52CC12C, 0x1747422F,
      0x49547E0B, 0xBB3FFD08, 0xA86F0EFC, 0x5A048DFF, 0x8ECEE914, 0x7CA56A17, 0x6FF599E3, 0x9D9E1AE0]
    case 13 => [
      0xD3D3E1AB, 0x21B862A8, 0x32E8915C, 0xC083125F, 0x144976B4, 0xE622F5B7, 0xF5720643, 0x07198540,
      0x590AB964, 0xAB613A67, 0xB831C993, 0x4A5A4A90, 0x9E902E7B, 0x6CFBAD78, 0x7FAB5E8C, 0x8DC0DD8F]
    case 14 => [
      0xE330A81A, 0x115B2B19, 0x020BD8ED, 0xF0605BEE, 0x24AA3F05, 0xD6C1BC06, 0xC5914FF2, 0x37FACCF1,
      0x69E9F0D5, 0x9B8273D6, 0x88D28022, 0x7AB90321, 0xAE7367CA, 0x5C18E4C9, 0x4F48173D, 0xBD23943E]
    case _ => [
      0xF36E6F75, 0x0105EC76, 0x12551F82, 0xE03E9C81, 0x34F4F86A, 0xC69F7B69, 0xD5CF889D, 0x27A40B9E,
      0x79B737BA, 0x8BDCB4B9, 0x988C474D, 0x6AE7C44E, 0xBE2DA0A5, 0x4C4623A6, 0x5F16D052, 0xAD7D5351]
  }

  function Row(k: Code, r: nat): (row: seq<bv32>)
    requires r < 16
    ensures |row| == 16
  {
    match k
    case Crc8 => Row8(r)
    case Crc16 => Row16(r)
    case Crc32c => Row32(r)
  }

  function Table(k: Code, i: bv8): bv32 {
    Row(k, (i >> 4) as nat)[(i & 0xf) as nat]
  }

  /** What row `b >> 4` of the table has to be. */
  function Divided(p: bv32, b: bv8): (row: seq<bv32>)
    ensures |row| == 16
  {
    [Shift8(p, (b | 0x0) as bv32), Shift8(p, (b | 0x1) as bv32), Shift8(p, (b | 0x2) as bv32),
     Shift8(p, (b | 0x3) as bv32), Shift8(p, (b | 0x4) as bv32), Shift8(p, (b | 0x5) as bv32),
     Shift8(p, (b | 0x6) as bv32), Shift8(p, (b | 0x7) as bv32), Shift8(p, (b | 0x8) as bv32),
     Shift8(p, (b | 0x9) as bv32), Shift8(p, (b | 0xa) as bv32), Shift8(p, (b | 0xb) as bv32),
     Shift8(p, (b | 0xc) as bv32), Shift8(p, (b | 0xd) as bv32), Shift8(p, (b | 0xe) as bv32),
     Shift8(p, (b | 0xf) as bv32)]
  }

  lemma Row0Divided()
    ensures Row8(0) == Divided(0xAB, 0x00) && Row16(0) == Divided(0xA001, 0x00)
    ensures Row32(0) == Divided(0x82F63B78, 0x00)
  {
  }

  lemma Row1Divided()
    ensures Row8(1) == Divided(0xAB, 0x10) && Row16(1) == Divided(0xA001, 0x10)
    ensures Row32(1) == Divided(0x82F63B78, 0x10)
  {
    WideRow1Divided();
  }

  lemma WideRow1Divided()
    ensures Row32(1) == Divided(0x82F63B78, 0x10)
  {
  }

  lemma Row2Divided()
    ensures Row8(2) == Divided(0xAB, 0x20) && Row16(2) == Divided(0xA001, 0x20)
    ensures Row32(2) == Divided(0x82F63B78, 0x20)
  {
  }

  lemma Row3Divided()
    ensures Row8(3) == Divided(0xAB, 0x30) && Row16(3) == Divided(0xA001, 0x30)
    ensures Row32(3) == Divided(0x82F63B78, 0x30)
  {
  }

  lemma Row4Divided()
    ensures Row8(4) == Divided(0xAB, 0x40) && Row16(4) == Divided(0xA001, 0x40)
    ensures Row32(4) == Divided(0x82F63B78, 0x40)
  {
  }

  lemma Row5Divided()
    ensures Row8(5) == Divided(0xAB, 0x50) && Row16(5) == Divided(0xA001, 0x50)
    ensures Row32(5) == Divided(0x82F63B78, 0x50)
  {
  }

  lemma Row6Divided()
    ensures Row8(6) == Divided(0xAB, 0x60) && Row16(6) == Divided(0xA001, 0x60)
    ensures Row32(6) == Divided(0x82F63B78, 0x60)
  {
  }

  lemma Row7Divided()
    ensures Row8(7) == Divided(0xAB, 0x70) && Row16(7) == Divided(0xA001, 0x70)
    ensures Row32(7) == Divided(0x82F63B78, 0x70)
  {
  }

  lemma Row8Divided()
    ensures Row8(8) == Divided(0xAB, 0x80) && Row16(8) == Divided(0xA001, 0x80)
    ensures Row32(8) == Divided(0x82F63B78, 0x80)
  {
  }

  lemma Row9Divided()
    ensures Row8(9) == Divided(0xAB, 0x90) && Row16(9) == Divided(0xA001, 0x90)
    ensures Row32(9) == Divided(0x82F63B78, 0x90)
  {
  }

  lemma Row10Divided()
    ensures Row8(10) == Divided(0xAB, 0xa0) && Row16(10) == Divided(0xA001, 0xa0)
    ensures Row32(10) == Divided(0x82F63B78, 0xa0)
  {
  }

  lemma Row11Divided()
    ensures Row8(11) == Divided(0xAB, 0xb0) && Row16(11) == Divided(0xA001, 0xb0)
    ensures Row32(11) == Divided(0x82F63B78, 0xb0)
  {
  }

  lemma Row12Divided()
    ensures Row8(12) == Divided(0xAB, 0xc0) && Row16(12) == Divided(0xA001, 0xc0)
    ensures Row32(12) == Divided(0x82F63B78, 0xc0)
  {
  }

  lemma Row13Divided()
    ensures Row8(13) == Divided(0xAB, 0xd0) && Row16(13) == Divided(0xA001, 0xd0)
    ensures Row32(13) == Divided(0x82F63B78, 0xd0)
  {
  }

  lemma Row14Divided()
    ensures Row8(14) == Divided(0xAB, 0xe0) && Row16(14) == Divided(0xA001, 0xe0)
    ensures Row32(14) == Divided(0x82F63B78, 0xe0)
  {
  }

  lemma Row15Divided()
    ensures Row8(15) == Divided(0xAB, 0xf0) && Row16(15) == Divided(0xA001, 0xf0)
    ensures Row32(15) == Divided(0x82F63B78, 0xf0)
  {
  }

  lemma AllRows(k: Code, i: bv8)
    ensures Row(k, (i >> 4) as nat) == Divided(Poly(k), i & 0xf0)
  {
    hide Row8, Row16, Row32, Divided;
    if i >> 4 == 0x0 {
      Row0Divided();
      assert i & 0xf0 == 0x00;
    } else if i >> 4 == 0x1 {
      Row1Divided();
      assert i & 0xf0 == 0x10;
    } else if i >> 4 == 0x2 {
      Row2Divided();
      assert i & 0xf0 == 0x20;
    } else if i >> 4 == 0x3 {
      Row3Divided();
      assert i & 0xf0 == 0x30;
    } else if i >> 4 == 0x4 {
      Row4Divided();
      assert i & 0xf0 == 0x40;
    } else if i >> 4 == 0x5 {
      Row5Divided();
      assert i & 0xf0 == 0x50;
    } else if i >> 4 == 0x6 {
      Row6Divided();
      assert i & 0xf0 == 0x60;
    } else if i >> 4 == 0x7 {
      Row7Divided();
      assert i & 0xf0 == 0x70;
    } else if i >> 4 == 0x8 {
      Row8Divided();
      assert i & 0xf0 == 0x80;
    } else if i >> 4 == 0x9 {
      Row9Divided();
      assert i & 0xf0 == 0x90;
    } else if i >> 4 == 0xa {
      Row10Divided();
      assert i & 0xf0 == 0xa0;
    } else if i >> 4 == 0xb {
      Row11Divided();
      assert i & 0xf0 == 0xb0;
    } else if i >> 4 == 0xc {
      Row12Divided();
      assert i & 0xf0 == 0xc0;
    } else if i >> 4 == 0xd {
      Row13Divided();
      assert i & 0xf0 == 0xd0;
    } else if i >> 4 == 0xe {
      Row14Divided();
      assert i & 0xf0 == 0xe0;
    } else if i >> 4 == 0xf {
      Row15Divided();
      assert i & 0xf0 == 0xf0;
    }
  }

  lemma Column0(p: bv32, i: bv8)
    requires (i & 0xf) >> 2 == 0
    ensures Divided(p, i & 0xf0)[(i & 0xf) as nat] == Shift8(p, i as bv32)
  {
    hide Shift8;
    if i & 0xf == 0x0 {
      assert i == (i & 0xf0) | 0x0;
    } else if i & 0xf == 0x1 {
      assert i == (i & 0xf0) | 0x1;
    } else if i & 0xf == 0x2 {
      assert i == (i & 0xf0) | 0x2;
    } else if i & 0xf == 0x3 {
      assert i == (i & 0xf0) | 0x3;
    }
  }

  lemma Column1(p: bv32, i: bv8)
    requires (i & 0xf) >> 2 == 1
    ensures Divided(p, i & 0xf0)[(i & 0xf) as nat] == Shift8(p, i as bv32)
  {
    hide Shift8;
    if i & 0xf == 0x4 {
      assert i == (i & 0xf0) | 0x4;
    } else if i & 0xf == 0x5 {
      assert i == (i & 0xf0) | 0x5;
    } else if i & 0xf == 0x6 {
      assert i == (i & 0xf0) | 0x6;
    } else if i & 0xf == 0x7 {
      assert i == (i & 0xf0) | 0x7;
    }
  }

  lemma Column2(p: bv32, i: bv8)
    requires (i & 0xf) >> 2 == 2
    ensures Divided(p, i & 0xf0)[(i & 0xf) as nat] == Shift8(p, i as bv32)
  {
    hide Shift8;
    if i & 0xf == 0x8 {
      assert i == (i & 0xf0) | 0x8;
    } else if i & 0xf == 0x9 {
      assert i == (i & 0xf0) | 0x9;
    } else if i & 0xf == 0xa {
      assert i == (i & 0xf0) | 0xa;
    } else if i & 0xf == 0xb {
      assert i == (i & 0xf0) | 0xb;
    }
  }

  lemma Column3(p: bv32, i: bv8)
    requires (i & 0xf) >> 2 == 3
    ensures Divided(p, i & 0xf0)[(i & 0xf) as nat] == Shift8(p, i as bv32)
  {
    hide Shift8;
    if i & 0xf == 0xc {
      assert i == (i & 0xf0) | 0xc;
    } else if i & 0xf == 0xd {
      assert i == (i & 0xf0) | 0xd;
    } else if i & 0xf == 0xe {
      assert i == (i & 0xf0) | 0xe;
    } else if i & 0xf == 0xf {
      assert i == (i & 0xf0) | 0xf;
    }
  }

  /** Every table entry is its index divided eight times. */
  lemma TableIsDivision(k: Code, i: bv8)
    ensures Table(k, i) == Shift8(Poly(k), i as bv32)
  {
    hide Row, Divided, Shift8, Poly;
    AllRows(k, i);
    if (i & 0xf) >> 2 == 0 {
      Column0(Poly(k), i);
    } else if (i & 0xf) >> 2 == 1 {
      Column1(Poly(k), i);
    } else if (i & 0xf) >> 2 == 2 {
      Column2(Poly(k), i);
    } else {
      Column3(Poly(k), i);
    }
  }

  // ----- the table-driven checksums -----

  function Low(x: bv32): bv8 {
    (x & 0xff) as bv8
  }

  function Update(k: Code, crc: bv32, b: bv8): bv32 {
    Table(k, Low(crc ^ (b as bv32))) ^ (crc >> 8)
  }

  function Crc(k: Code, crc: bv32, data: seq<bv8>): bv32
    decreases |data|
  {
    if data == [] then crc else Crc(k, Update(k, crc, data[0]), data[1..])
  }

  /** One round of the loop in crc8: an 8-bit register has nothing above its low byte to shift down. */
  method Crc8Byte(crc: bv32, b: bv8) returns (r: bv32)
    requires Fits(Crc8, crc)
    ensures r == Update(Crc8, crc, b) && Fits(Crc8, r)
  {
    NarrowUpdate(crc, b);
    r := Table(Crc8, Low(crc ^ (b as bv32)));
  }

  /** crc16_byte */
  method Crc16Byte(crc: bv32, b: bv8) returns (r: bv32)
    requires Fits(Crc16, crc)
    ensures r == Update(Crc16, crc, b) && Fits(Crc16, r)
  {
    hide Table, Low;
    UpdateFits(Crc16, crc, b);
    XorSymmetric(crc >> 8, Table(Crc16, Low(crc ^ (b as bv32))));
    r := (crc >> 8) ^ Table(Crc16, Low(crc ^ (b as bv32)));
  }

  method Crc32cByte(crc: bv32, b: bv8) returns (r: bv32)
    ensures r == Update(Crc32c, crc, b)
  {
    r := Table(Crc32c, Low(crc ^ (b as bv32))) ^ (crc >> 8);
  }

  method ComputeCrc8(crc0: bv32, buffer: seq<bv8>) returns (crc: bv32)
    requires Fits(Crc8, crc0)
    ensures crc == Crc(Crc8, crc0, buffer) && Fits(Crc8, crc)
  {
    hide Fits, Update;
    crc := crc0;
    for i := 0 to |buffer|
      invariant Fits(Crc8, crc) && Crc(Crc8, crc, buffer[i..]) == Crc(Crc8, crc0, buffer)
    {
      assert buffer[i..][1..] == buffer[i + 1..];
      crc := Crc8Byte(crc, buffer[i]);
    }
  }

  method ComputeCrc16(crc0: bv32, buffer: seq<bv8>) returns (crc: bv32)
    requires Fits(Crc16, crc0)
    ensures crc == Crc(Crc16, crc0, buffer) && Fits(Crc16, crc)
  {
    hide Fits, Update;
    crc := crc0;
    for i := 0 to |buffer|
      invariant Fits(Crc16, crc) && Crc(Crc16, crc, buffer[i..]) == Crc(Crc16, crc0, buffer)
    {
      assert buffer[i..][1..] == buffer[i + 1..];
      crc := Crc16Byte(crc, buffer[i]);
    }
  }

  method ComputeCrc32c(data: seq<bv8>) returns (crc: bv32)
    ensures crc == !Crc(Crc32c, 0xffff_ffff, data)
  {
    hide Update;
    crc := 0xffff_ffff;
    for i := 0 to |data|
      invariant Crc(Crc32c, crc, data[i..]) == Crc(Crc32c, 0xffff_ffff, data)
    {
      assert data[i..][1..] == data[i + 1..];
      crc := Crc32cByte(crc, data[i]);
    }
    assert data[|data|..] == [];
    crc := !crc;
  }

  // ----- the reference: one bit at a time -----

  predicate Odd(v: bv32) {
    v & 1 == 1
  }

  function Half(v: bv32): bv32 {
    v >> 1
  }

  function Mix(c: bv32, v: bv32): bv32 {
    c ^ v
  }

  /** Shifts one message bit in. */
  function DivideBit(p: bv32, crc: bv32, bit: bool): bv32 {
    if (crc & 1 == 1) != bit then (crc >> 1) ^ p else crc >> 1
  }

  /** The four lowest bits of v, least significant first. */
  function DivideFour(p: bv32, crc: bv32, v: bv32): bv32 {
    DivideBit(p, DivideBit(p, DivideBit(p, DivideBit(p, crc, Odd(v)), Odd(Half(v))), Odd(Half(Half(v)))),
              Odd(Half(Half(Half(v)))))
  }

  function Half4(v: bv32): bv32 {
    Half(Half(Half(Half(v))))
  }

  function DivideByte(p: bv32, crc: bv32, b: bv8): bv32 {
    DivideFour(p, DivideFour(p, crc, b as bv32), Half4(b as bv32))
  }

  function Divide(p: bv32, crc: bv32, data: seq<bv8>): bv32
    decreases |data|
  {
    if data == [] then crc else Divide(p, DivideByte(p, crc, data[0]), data[1..])
  }

  lemma HalfMix(c: bv32, v: bv32)
    ensures Half(Mix(c, v)) == Mix(Half(c), Half(v))
  {
  }

  lemma OddMix(c: bv32, v: bv32)
    ensures Odd(Mix(c, v)) <==> Odd(c) != Odd(v)
  {
  }

  lemma MixSwap(a: bv32, b: bv32, p: bv32)
    ensures Mix(Mix(a, b), p) == Mix(Mix(a, p), b)
  {
    hide Mix;
    MixAssociative(a, b, p);
    MixCommutative(b, p);
    MixAssociative(a, p, b);
  }

  lemma MixAssociative(a: bv32, b: bv32, c: bv32)
    ensures Mix(Mix(a, b), c) == Mix(a, Mix(b, c))
  {
  }

  lemma MixCommutative(a: bv32, b: bv32)
    ensures Mix(a, b) == Mix(b, a)
  {
  }

  lemma XorSymmetric(a: bv32, t: bv32)
    ensures Mix(t, a) == a ^ t == t ^ a
  {
  }

  lemma BitForms(p: bv32, c: bv32, bit: bool)
    ensures Shift(p, c) == if Odd(c) then Mix(Half(c), p) else Half(c)
    ensures DivideBit(p, c, bit) == if Odd(c) != bit then Mix(Half(c), p) else Half(c)
  {
  }

  /** Feeding a bit in is the same as having it in the register already. */
  lemma FeedBit(p: bv32, c: bv32, v: bv32)
    ensures Shift(p, Mix(c, v)) == Mix(DivideBit(p, c, Odd(v)), Half(v))
  {
    hide Shift, DivideBit, Mix, Half, Odd;
    BitForms(p, c, Odd(v));
    BitForms(p, Mix(c, v), false);
    HalfMix(c, v);
    OddMix(c, v);
    MixSwap(Half(c), Half(v), p);
  }

  lemma FeedFour(p: bv32, c: bv32, v: bv32)
    ensures Shift4(p, Mix(c, v)) == Mix(DivideFour(p, c, v), Half4(v))
  {
    hide Shift, DivideBit, Mix, Half, Odd;
    var c1 := DivideBit(p, c, Odd(v));
    var c2 := DivideBit(p, c1, Odd(Half(v)));
    var c3 := DivideBit(p, c2, Odd(Half(Half(v))));
    FeedBit(p, c, v);
    FeedBit(p, c1, Half(v));
    FeedBit(p, c2, Half(Half(v)));
    FeedBit(p, c3, Half(Half(Half(v))));
  }

  lemma EightHalves(v: bv32)
    ensures Half4(Half4(v)) == v >> 8
  {
  }

  lemma ByteUsedUp(c: bv32, b: bv8)
    ensures Mix(c, (b as bv32) >> 8) == c
  {
  }

  lemma BytewiseDivision(p: bv32, crc: bv32, b: bv8)
    ensures DivideByte(p, crc, b) == Shift8(p, Mix(crc, b as bv32))
  {
    hide Shift4, DivideFour, Mix, Half4;
    FeedFour(p, crc, b as bv32);
    FeedFour(p, DivideFour(p, crc, b as bv32), Half4(b as bv32));
    EightHalves(b as bv32);
    ByteUsedUp(DivideByte(p, crc, b), b);
  }

  // ----- the low byte is divided, the others move down -----

  lemma ShiftHigh(p: bv32, u: bv32, v: bv32)
    requires !Odd(v)
    ensures Shift(p, Mix(u, v)) == Mix(Shift(p, u), Half(v))
  {
    hide Mix, Half;
    FeedBit(p, u, v);
  }

  ghost predicate FourClear(v: bv32) {
    !Odd(v) && !Odd(Half(v)) && !Odd(Half(Half(v))) && !Odd(Half(Half(Half(v))))
  }

  lemma ShiftHighFour(p: bv32, u: bv32, v: bv32)
    requires FourClear(v)
    ensures Shift4(p, Mix(u, v)) == Mix(Shift4(p, u), Half4(v))
  {
    hide Shift, Mix, Half, Odd;
    var u1 := Shift(p, u);
    var u2 := Shift(p, u1);
    ShiftHigh(p, u, v);
    ShiftHigh(p, u1, Half(v));
    ShiftHigh(p, u2, Half(Half(v)));
    ShiftHigh(p, Shift(p, u2), Half(Half(Half(v))));
  }

  lemma TwoParts(x: bv32)
    ensures x == Mix(x & 0xff, x & !0xff)
    ensures FourClear(x & !0xff) && FourClear(Half4(x & !0xff)) && Half4(Half4(x & !0xff)) == x >> 8
  {
  }

  lemma LowByte(p: bv32, x: bv32)
    ensures Shift8(p, x) == Mix(Shift8(p, x & 0xff), x >> 8)
  {
    hide Shift4, Mix, Half4, FourClear;
    TwoParts(x);
    ShiftHighFour(p, x & 0xff, x & !0xff);
    ShiftHighFour(p, Shift4(p, x & 0xff), Half4(x & !0xff));
  }

  lemma SameHigh(crc: bv32, b: bv8)
    ensures Mix(crc, b as bv32) >> 8 == crc >> 8
  {
  }

  lemma LowWide(x: bv32)
    ensures Low(x) as bv32 == x & 0xff
  {
  }

  lemma UpdateForm(k: Code, crc: bv32, b: bv8, x: bv32)
    requires x == Mix(crc, b as bv32)
    ensures Update(k, crc, b) == Mix(Table(k, Low(x)), x >> 8)
  {
    hide Table, Low;
    SameHigh(crc, b);
  }

  lemma UpdateIsDivision(k: Code, crc: bv32, b: bv8)
    ensures Update(k, crc, b) == Shift8(Poly(k), Mix(crc, b as bv32)) == DivideByte(Poly(k), crc, b)
  {
    hide Table, Shift8, Mix, Low, Update, DivideByte, Poly;
    var x := Mix(crc, b as bv32);
    UpdateForm(k, crc, b, x);
    LowWide(x);
    LowByte(Poly(k), x);
    TableIsDivision(k, Low(x));
    BytewiseDivision(Poly(k), crc, b);
  }

  /** The table-driven checksum of any buffer is its bit-by-bit reflected polynomial division. */
  lemma {:induction false} CrcIsDivision(k: Code, crc: bv32, data: seq<bv8>)
    ensures Crc(k, crc, data) == Divide(Poly(k), crc, data)
    decreases |data|
  {
    hide Update, DivideByte, Poly;
    if data != [] {
      UpdateIsDivision(k, crc, data[0]);
      CrcIsDivision(k, Update(k, crc, data[0]), data[1..]);
    }
  }

  /** Checksums compose over concatenation. */
  lemma {:induction false} CrcAppend(k: Code, crc: bv32, a: seq<bv8>, b: seq<bv8>)
    ensures Crc(k, crc, a + b) == Crc(k, Crc(k, crc, a), b)
    decreases |a|
  {
    hide Update;
    if a == [] {
      assert a + b == b;
    } else {
      assert (a + b)[1..] == a[1..] + b;
      CrcAppend(k, Update(k, crc, a[0]), a[1..], b);
    }
  }

  // ----- registers keep their width -----

  lemma ShiftFits(k: Code, c: bv32)
    requires Fits(k, c)
    ensures Fits(k, Shift(Poly(k), c))
  {
    match k
    case Crc8 =>
    case Crc16 =>
    case Crc32c =>
  }

  lemma Shift8Fits(k: Code, c: bv32)
    requires Fits(k, c)
    ensures Fits(k, Shift8(Poly(k), c))
  {
    hide Shift, Fits, Poly;
    var c1 := Shift(Poly(k), c);
    var c2 := Shift(Poly(k), c1);
    var c3 := Shift(Poly(k), c2);
    var c4 := Shift(Poly(k), c3);
    var c5 := Shift(Poly(k), c4);
    var c6 := Shift(Poly(k), c5);
    ShiftFits(k, c);
    ShiftFits(k, c1);
    ShiftFits(k, c2);
    ShiftFits(k, c3);
    ShiftFits(k, c4);
    ShiftFits(k, c5);
    ShiftFits(k, c6);
    ShiftFits(k, Shift(Poly(k), c6));
  }

  lemma MixFits(k: Code, c: bv32, b: bv8)
    requires Fits(k, c)
    ensures Fits(k, Mix(c, b as bv32))
  {
    match k
    case Crc8 =>
    case Crc16 =>
    case Crc32c =>
  }

  lemma UpdateFits(k: Code, crc: bv32, b: bv8)
    requires Fits(k, crc)
    ensures Fits(k, Update(k, crc, b))
  {
    hide Fits, Update, Shift8, Mix, DivideByte, Poly;
    UpdateIsDivision(k, crc, b);
    MixFits(k, crc, b);
    Shift8Fits(k, Mix(crc, b as bv32));
  }

  lemma NarrowUpdate(crc: bv32, b: bv8)
    requires Fits(Crc8, crc)
    ensures Update(Crc8, crc, b) == Table(Crc8, Low(crc ^ (b as bv32)))
    ensures Fits(Crc8, Update(Crc8, crc, b))
  {
    hide Table, Low;
    UpdateFits(Crc8, crc, b);
    NothingHigh(crc, Table(Crc8, Low(crc ^ (b as bv32))));
  }

  lemma NothingHigh(crc: bv32, t: bv32)
    requires Fits(Crc8, crc)
    ensures t ^ (crc >> 8) == t
  {
  }

  // ----- error detection -----

  /** The top bit of the polynomial tells whether it was mixed in, so a division step can be undone. */
  lemma ShiftInjective(k: Code, c: bv32, d: bv32)
    requires Fits(k, c) && Fits(k, d) && Shift(Poly(k), c) == Shift(Poly(k), d)
    ensures c == d
  {
    hide Fits, Shift, Poly;
    TopBit(k, c);
    TopBit(k, d);
    ShiftUndone(Poly(k), c, d);
  }

  lemma ShiftUndone(p: bv32, c: bv32, d: bv32)
    requires Shift(p, c) == Shift(p, d) && (c & 1 == 1 <==> d & 1 == 1)
    ensures c == d
  {
    XorUndone(c >> 1, d >> 1, p);
    SameHalves(c, d);
  }

  /** The top bit of a register of code k. */
  function Top(k: Code): bv32 {
    match k
    case Crc8 => 0x80
    case Crc16 => 0x8000
    case Crc32c => 0x8000_0000
  }

  lemma TopBit(k: Code, c: bv32)
    requires Fits(k, c)
    ensures Shift(Poly(k), c) & Top(k) != 0 <==> c & 1 == 1
  {
    match k
    case Crc8 =>
    case Crc16 =>
    case Crc32c =>
  }

  lemma XorUndone(a: bv32, b: bv32, p: bv32)
    ensures a ^ p == b ^ p ==> a == b
  {
  }

  lemma SameHalves(c: bv32, d: bv32)
    ensures c >> 1 == d >> 1 && (c & 1 == 1 <==> d & 1 == 1) ==> c == d
  {
  }

  lemma Shift4Injective(k: Code, c: bv32, d: bv32)
    requires Fits(k, c) && Fits(k, d) && Shift4(Poly(k), c) == Shift4(Poly(k), d)
    ensures c == d && Fits(k, Shift4(Poly(k), c))
  {
    hide Shift, Fits, Poly;
    var c1, d1 := Shift(Poly(k), c), Shift(Poly(k), d);
    var c2, d2 := Shift(Poly(k), c1), Shift(Poly(k), d1);
    var c3, d3 := Shift(Poly(k), c2), Shift(Poly(k), d2);
    ShiftFits(k, c);
    ShiftFits(k, d);
    ShiftFits(k, c1);
    ShiftFits(k, d1);
    ShiftFits(k, c2);
    ShiftFits(k, d2);
    ShiftFits(k, c3);
    ShiftInjective(k, c3, d3);
    ShiftInjective(k, c2, d2);
    ShiftInjective(k, c1, d1);
    ShiftInjective(k, c, d);
  }

  lemma Shift4Fits(k: Code, c: bv32)
    requires Fits(k, c)
    ensures Fits(k, Shift4(Poly(k), c))
  {
    hide Shift, Fits, Poly;
    Shift4Injective(k, c, c);
  }

  lemma Shift8Injective(k: Code, c: bv32, d: bv32)
    requires Fits(k, c) && Fits(k, d) && Shift8(Poly(k), c) == Shift8(Poly(k), d)
    ensures c == d
  {
    hide Shift4, Fits, Poly;
    Shift4Fits(k, c);
    Shift4Fits(k, d);
    Shift4Injective(k, Shift4(Poly(k), c), Shift4(Poly(k), d));
    Shift4Injective(k, c, d);
  }

  lemma XorCancel(c: bv32, d: bv32, x: bv8, y: bv8)
    requires Mix(c, x as bv32) == Mix(d, y as bv32) && (c == d || x == y)
    ensures c == d && x == y
  {
  }

  /** Each update is injective in the register and in the byte. */
  lemma UpdateInjective(k: Code, c: bv32, d: bv32, x: bv8, y: bv8)
    requires Fits(k, c) && Fits(k, d)
    requires Update(k, c, x) == Update(k, d, y) && (c == d || x == y)
    ensures c == d && x == y
  {
    hide Fits, Update, Shift8, DivideByte, Mix, Poly;
    UpdateIsDivision(k, c, x);
    UpdateIsDivision(k, d, y);
    MixFits(k, c, x);
    MixFits(k, d, y);
    Shift8Injective(k, Mix(c, x as bv32), Mix(d, y as bv32));
    XorCancel(c, d, x, y);
  }

  lemma {:induction false} CrcFits(k: Code, c: bv32, data: seq<bv8>)
    requires Fits(k, c)
    ensures Fits(k, Crc(k, c, data))
    decreases |data|
  {
    hide Fits, Update;
    if data != [] {
      UpdateFits(k, c, data[0]);
      CrcFits(k, Update(k, c, data[0]), data[1..]);
    }
  }

  /** Registers that differ stay different whatever bytes follow. */
  lemma {:induction false} StaysDifferent(k: Code, c: bv32, d: bv32, data: seq<bv8>)
    requires Fits(k, c) && Fits(k, d) && c != d
    ensures Crc(k, c, data) != Crc(k, d, data)
    decreases |data|
  {
    hide Fits, Update;
    if data != [] {
      if Update(k, c, data[0]) == Update(k, d, data[0]) {
        UpdateInjective(k, c, d, data[0], data[0]);
      }
      UpdateFits(k, c, data[0]);
      UpdateFits(k, d, data[0]);
      StaysDifferent(k, Update(k, c, data[0]), Update(k, d, data[0]), data[1..]);
    }
  }

  lemma CrcStep(k: Code, c: bv32, x: bv8, post: seq<bv8>)
    ensures Crc(k, c, [x] + post) == Crc(k, Update(k, c, x), post)
  {
    hide Update;
    assert ([x] + post)[1..] == post;
  }

  /** Changing exactly one byte of a buffer always changes its checksum. */
  lemma OneByteDetected(k: Code, crc: bv32, pre: seq<bv8>, x: bv8, y: bv8, post: seq<bv8>)
    requires Fits(k, crc) && x != y
    ensures Crc(k, crc, pre + [x] + post) != Crc(k, crc, pre + [y] + post)
  {
    hide Fits, Update, Crc;
    var c := Crc(k, crc, pre);
    CrcFits(k, crc, pre);
    CrcAppend(k, crc, pre, [x] + post);
    CrcAppend(k, crc, pre, [y] + post);
    CrcStep(k, c, x, post);
    CrcStep(k, c, y, post);
    assert pre + [x] + post == pre + ([x] + post) && pre + [y] + post == pre + ([y] + post);
    if Update(k, c, x) == Update(k, c, y) {
      UpdateInjective(k, c, c, x, y);
    }
    UpdateFits(k, c, x);
    UpdateFits(k, c, y);
    StaysDifferent(k, Update(k, c, x), Update(k, c, y), post);
  }
}
