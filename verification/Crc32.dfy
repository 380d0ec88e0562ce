// CRC32: a table of 256 words does eight steps of a bitwise division at a time.

module Crc32 {
  import opened Bytes

  // The 32 bits that the register holds, whatever the width of its type: callers
  // pass 0 or an earlier result.
  type word = bv32

  function Xor(a: word, b: word): word { a ^ b }

  function Flip(c: word): word { c ^ 0xFFFFFFFF }

  function Low8(c: word): word { c & 0xFF }

  function High24(c: word): word { c & 0xFFFFFF00 }

  // ---------------------------------------------------------------------------
  // The division
  // ---------------------------------------------------------------------------

  // One step of the reflected division by 0xEDB88320.
  function Bit(c: word): word {
    if c & 1 == 1 then (c >> 1) ^ 0xEDB88320 else c >> 1
  }

  function Bits2(c: word): word { Bit(Bit(c)) }

  function Bits4(c: word): word { Bits2(Bits2(c)) }

  function Bits8(c: word): word { Bits4(Bits4(c)) }

  // The register after one byte.
  function Next(c: word, b: byte): word { Bits8(Xor(c, b as word)) }

  // The register after the bytes of `s`.
  function Divide(c: word, s: seq<byte>): word
    decreases s
  {
    if s == [] then c else Divide(Next(c, s[0]), s[1..])
  }

  // What CRC32_hash is meant to compute.
  function Crc(c: word, s: seq<byte>): word {
    Flip(Divide(Flip(c), s))
  }

  // Facts about words, one at a time.
  lemma ShiftXor(a: word, b: word)
    ensures (a ^ b) >> 1 == (a >> 1) ^ (b >> 1) && (a ^ b) & 1 == (a & 1) ^ (b & 1)
    ensures a & 1 == 0 || a & 1 == 1
  {
  }

  lemma XorMoves(a: word, b: word, p: word)
    ensures (a ^ p) ^ (b ^ p) == a ^ b && (a ^ p) ^ b == (a ^ b) ^ p == a ^ (b ^ p)
  {
  }

  lemma HighLow(c: word)
    ensures Xor(High24(c), Low8(c)) == c && High24(c) & 0xFF == 0 && High24(c) >> 8 == c >> 8
  {
  }

  // The division is linear over xor.
  lemma BitXor(a: word, b: word)
    ensures Bit(Xor(a, b)) == Xor(Bit(a), Bit(b))
  {
    ShiftXor(a, b);
    ShiftXor(b, a);
    XorMoves(a >> 1, b >> 1, 0xEDB88320);
  }

  lemma Bits2Xor(a: word, b: word)
    ensures Bits2(Xor(a, b)) == Xor(Bits2(a), Bits2(b))
  {
    hide Bit, Xor;
    BitXor(a, b);
    BitXor(Bit(a), Bit(b));
  }

  lemma Bits4Xor(a: word, b: word)
    ensures Bits4(Xor(a, b)) == Xor(Bits4(a), Bits4(b))
  {
    hide Bits2, Xor;
    Bits2Xor(a, b);
    Bits2Xor(Bits2(a), Bits2(b));
  }

  lemma Bits8Xor(a: word, b: word)
    ensures Bits8(Xor(a, b)) == Xor(Bits8(a), Bits8(b))
  {
    hide Bits4, Xor;
    Bits4Xor(a, b);
    Bits4Xor(Bits4(a), Bits4(b));
  }

  // Without low bits the eight steps are a shift.
  lemma Bits4Shift(c: word)
    requires c & 0xF == 0
    ensures Bits4(c) == c >> 4
  {
  }

  lemma Bits8Shift(c: word)
    requires c & 0xFF == 0
    ensures Bits8(c) == c >> 8
  {
    hide Bits4;
    Bits4Shift(c);
    Bits4Shift(c >> 4);
  }

  // So eight steps are a shift, and eight steps of the low byte.
  lemma Bits8Split(c: word)
    ensures Bits8(c) == Xor(c >> 8, Bits8(Low8(c)))
  {
    hide Bits8, Xor, Low8, High24;
    HighLow(c);
    Bits8Xor(High24(c), Low8(c));
    Bits8Shift(High24(c));
  }

  // ---------------------------------------------------------------------------
  // The table
  // ---------------------------------------------------------------------------

  const ROW0: seq<word> := [
    0x00000000, 0x77073096, 0xee0e612c, 0x990951ba, 0x076dc419, 0x706af48f, 0xe963a535, 0x9e6495a3,
    0x0edb8832, 0x79dcb8a4, 0xe0d5e91e, 0x97d2d988, 0x09b64c2b, 0x7eb17cbd, 0xe7b82d07, 0x90bf1d91]
  const ROW1: seq<word> := [
    0x1db71064, 0x6ab020f2, 0xf3b97148, 0x84be41de, 0x1adad47d, 0x6ddde4eb, 0xf4d4b551, 0x83d385c7,
    0x136c9856, 0x646ba8c0, 0xfd62f97a, 0x8a65c9ec, 0x14015c4f, 0x63066cd9, 0xfa0f3d63, 0x8d080df5]
  const ROW2: seq<word> := [
    0x3b6e20c8, 0x4c69105e, 0xd56041e4, 0xa2677172, 0x3c03e4d1, 0x4b04d447, 0xd20d85fd, 0xa50ab56b,
    0x35b5a8fa, 0x42b2986c, 0xdbbbc9d6, 0xacbcf940, 0x32d86ce3, 0x45df5c75, 0xdcd60dcf, 0xabd13d59]
  const ROW3: seq<word> := [
    0x26d930ac, 0x51de003a, 0xc8d75180, 0xbfd06116, 0x21b4f4b5, 0x56b3c423, 0xcfba9599, 0xb8bda50f,
    0x2802b89e, 0x5f058808, 0xc60cd9b2, 0xb10be924, 0x2f6f7c87, 0x58684c11, 0xc1611dab, 0xb6662d3d]
  const ROW4: seq<word> := [
    0x76dc4190, 0x01db7106, 0x98d220bc, 0xefd5102a, 0x71b18589, 0x06b6b51f, 0x9fbfe4a5, 0xe8b8d433,
    0x7807c9a2, 0x0f00f934, 0x9609a88e, 0xe10e9818, 0x7f6a0dbb, 0x086d3d2d, 0x91646c97, 0xe6635c01]
  const ROW5: seq<word> := [
    0x6b6b51f4, 0x1c6c6162, 0x856530d8, 0xf262004e, 0x6c0695ed, 0x1b01a57b, 0x8208f4c1, 0xf50fc457,
    0x65b0d9c6, 0x12b7e950, 0x8bbeb8ea, 0xfcb9887c, 0x62dd1ddf, 0x15da2d49, 0x8cd37cf3, 0xfbd44c65]
  const ROW6: seq<word> := [
    0x4db26158, 0x3ab551ce, 0xa3bc0074, 0xd4bb30e2, 0x4adfa541, 0x3dd895d7, 0xa4d1c46d, 0xd3d6f4fb,
    0x4369e96a, 0x346ed9fc, 0xad678846, 0xda60b8d0, 0x44042d73, 0x33031de5, 0xaa0a4c5f, 0xdd0d7cc9]
  const ROW7: seq<word> := [
    0x5005713c, 0x270241aa, 0xbe0b1010, 0xc90c2086, 0x5768b525, 0x206f85b3, 0xb966d409, 0xce61e49f,
    0x5edef90e, 0x29d9c998, 0xb0d09822, 0xc7d7a8b4, 0x59b33d17, 0x2eb40d81, 0xb7bd5c3b, 0xc0ba6cad]
  const ROW8: seq<word> := [
    0xedb88320, 0x9abfb3b6, 0x03b6e20c, 0x74b1d29a, 0xead54739, 0x9dd277af, 0x04db2615, 0x73dc1683,
    0xe3630b12, 0x94643b84, 0x0d6d6a3e, 0x7a6a5aa8, 0xe40ecf0b, 0x9309ff9d, 0x0a00ae27, 0x7d079eb1]
  const ROW9: seq<word> := [
    0xf00f9344, 0x8708a3d2, 0x1e01f268, 0x6906c2fe, 0xf762575d, 0x806567cb, 0x196c3671, 0x6e6b06e7,
    0xfed41b76, 0x89d32be0, 0x10da7a5a, 0x67dd4acc, 0xf9b9df6f, 0x8ebeeff9, 0x17b7be43, 0x60b08ed5]
  const ROWA: seq<word> := [
    0xd6d6a3e8, 0xa1d1937e, 0x38d8c2c4, 0x4fdff252, 0xd1bb67f1, 0xa6bc5767, 0x3fb506dd, 0x48b2364b,
    0xd80d2bda, 0xaf0a1b4c, 0x36034af6, 0x41047a60, 0xdf60efc3, 0xa867df55, 0x316e8eef, 0x4669be79]
  const ROWB: seq<word> := [
    0xcb61b38c, 0xbc66831a, 0x256fd2a0, 0x5268e236, 0xcc0c7795, 0xbb0b4703, 0x220216b9, 0x5505262f,
    0xc5ba3bbe, 0xb2bd0b28, 0x2bb45a92, 0x5cb36a04, 0xc2d7ffa7, 0xb5d0cf31, 0x2cd99e8b, 0x5bdeae1d]
  const ROWC: seq<word> := [
    0x9b64c2b0, 0xec63f226, 0x756aa39c, 0x026d930a, 0x9c0906a9, 0xeb0e363f, 0x72076785, 0x05005713,
    0x95bf4a82, 0xe2b87a14, 0x7bb12bae, 0x0cb61b38, 0x92d28e9b, 0xe5d5be0d, 0x7cdcefb7, 0x0bdbdf21]
  const ROWD: seq<word> := [
    0x86d3d2d4, 0xf1d4e242, 0x68ddb3f8, 0x1fda836e, 0x81be16cd, 0xf6b9265b, 0x6fb077e1, 0x18b74777,
    0x88085ae6, 0xff0f6a70, 0x66063bca, 0x11010b5c, 0x8f659eff, 0xf862ae69, 0x616bffd3, 0x166ccf45]
  const ROWE: seq<word> := [
    0xa00ae278, 0xd70dd2ee, 0x4e048354, 0x3903b3c2, 0xa7672661, 0xd06016f7, 0x4969474d, 0x3e6e77db,
    0xaed16a4a, 0xd9d65adc, 0x40df0b66, 0x37d83bf0, 0xa9bcae53, 0xdebb9ec5, 0x47b2cf7f, 0x30b5ffe9]
  const ROWF: seq<word> := [
    0xbdbdf21c, 0xcabac28a, 0x53b39330, 0x24b4a3a6, 0xbad03605, 0xcdd70693, 0x54de5729, 0x23d967bf,
    0xb3667a2e, 0xc4614ab8, 0x5d681b02, 0x2a6f2b94, 0xb40bbe37, 0xc30c8ea1, 0x5a05df1b, 0x2d02ef8d]

  function Pick(l: byte, row: seq<word>): word
    requires |row| == 16
  {
    if l == 0 then row[0] else if l == 1 then row[1] else if l == 2 then row[2] else if l == 3 then row[3]
    else if l == 4 then row[4] else if l == 5 then row[5] else if l == 6 then row[6] else if l == 7 then row[7]
    else if l == 8 then row[8] else if l == 9 then row[9] else if l == 10 then row[10] else if l == 11 then row[11]
    else if l == 12 then row[12] else if l == 13 then row[13] else if l == 14 then row[14] else row[15]
  }

  // The entry of a table index.
  function Tab(i: byte): word {
    var l := i & 0x0F;
    if i < 0x10 then Pick(l, ROW0) else if i < 0x20 then Pick(l, ROW1)
    else if i < 0x30 then Pick(l, ROW2) else if i < 0x40 then Pick(l, ROW3)
    else if i < 0x50 then Pick(l, ROW4) else if i < 0x60 then Pick(l, ROW5)
    else if i < 0x70 then Pick(l, ROW6) else if i < 0x80 then Pick(l, ROW7)
    else if i < 0x90 then Pick(l, ROW8) else if i < 0xA0 then Pick(l, ROW9)
    else if i < 0xB0 then Pick(l, ROWA) else if i < 0xC0 then Pick(l, ROWB)
    else if i < 0xD0 then Pick(l, ROWC) else if i < 0xE0 then Pick(l, ROWD)
    else if i < 0xF0 then Pick(l, ROWE) else Pick(l, ROWF)
  }

  // The xor of the entries for the single bits of a byte.
  function Basis(i: byte): word {
    Xor(Low(i), High(i))
  }

  function Single(i: byte, m: byte, e: word): word { if i & m == 0 then 0 else e }

  function Low(i: byte): word {
    Xor(Xor(Single(i, 1, 0x77073096), Single(i, 2, 0xee0e612c)),
        Xor(Single(i, 4, 0x076dc419), Single(i, 8, 0x0edb8832)))
  }

  function High(i: byte): word {
    Xor(Xor(Single(i, 0x10, 0x1db71064), Single(i, 0x20, 0x3b6e20c8)),
        Xor(Single(i, 0x40, 0x76dc4190), Single(i, 0x80, 0xedb88320)))
  }

  lemma Row0(i: byte)
    requires 0x00 <= i < 0x10
    ensures Pick(i & 0x0F, ROW0) == Basis(i)
  {
  }

  lemma Row1(i: byte)
    requires 0x10 <= i < 0x20
    ensures Pick(i & 0x0F, ROW1) == Basis(i)
  {
  }

  lemma Row2(i: byte)
    requires 0x20 <= i < 0x30
    ensures Pick(i & 0x0F, ROW2) == Basis(i)
  {
  }

  lemma Row3(i: byte)
    requires 0x30 <= i < 0x40
    ensures Pick(i & 0x0F, ROW3) == Basis(i)
  {
  }

  lemma Row4(i: byte)
    requires 0x40 <= i < 0x50
    ensures Pick(i & 0x0F, ROW4) == Basis(i)
  {
  }

  lemma Row5(i: byte)
    requires 0x50 <= i < 0x60
    ensures Pick(i & 0x0F, ROW5) == Basis(i)
  {
  }

  lemma Row6(i: byte)
    requires 0x60 <= i < 0x70
    ensures Pick(i & 0x0F, ROW6) == Basis(i)
  {
  }

  lemma Row7(i: byte)
    requires 0x70 <= i < 0x80
    ensures Pick(i & 0x0F, ROW7) == Basis(i)
  {
  }

  lemma Row8(i: byte)
    requires 0x80 <= i < 0x90
    ensures Pick(i & 0x0F, ROW8) == Basis(i)
  {
  }

  lemma Row9(i: byte)
    requires 0x90 <= i < 0xA0
    ensures Pick(i & 0x0F, ROW9) == Basis(i)
  {
  }

  lemma RowA(i: byte)
    requires 0xA0 <= i < 0xB0
    ensures Pick(i & 0x0F, ROWA) == Basis(i)
  {
  }

  lemma RowB(i: byte)
    requires 0xB0 <= i < 0xC0
    ensures Pick(i & 0x0F, ROWB) == Basis(i)
  {
  }

  lemma RowC(i: byte)
    requires 0xC0 <= i < 0xD0
    ensures Pick(i & 0x0F, ROWC) == Basis(i)
  {
  }

  lemma RowD(i: byte)
    requires 0xD0 <= i < 0xE0
    ensures Pick(i & 0x0F, ROWD) == Basis(i)
  {
  }

  lemma RowE(i: byte)
    requires 0xE0 <= i < 0xF0
    ensures Pick(i & 0x0F, ROWE) == Basis(i)
  {
  }

  lemma RowF(i: byte)
    requires 0xF0 <= i
    ensures Pick(i & 0x0F, ROWF) == Basis(i)
  {
  }


  lemma TabIsBasis(i: byte)
    ensures Tab(i) == Basis(i)
  {
    hide Pick, Basis;
    if i < 0x80 {
      if i < 0x10 { Row0(i); } else if i < 0x20 { Row1(i); } else if i < 0x30 { Row2(i); } else if i < 0x40 { Row3(i); }
      else if i < 0x50 { Row4(i); } else if i < 0x60 { Row5(i); } else if i < 0x70 { Row6(i); } else { Row7(i); }
    } else {
      if i < 0x90 { Row8(i); } else if i < 0xA0 { Row9(i); } else if i < 0xB0 { RowA(i); } else if i < 0xC0 { RowB(i); }
      else if i < 0xD0 { RowC(i); } else if i < 0xE0 { RowD(i); } else if i < 0xF0 { RowE(i); } else { RowF(i); }
    }
  }

  // The steps of each single bit.
  lemma SingleBits()
    ensures Bits8(0) == 0 && Bits8(1) == 0x77073096 && Bits8(2) == 0xee0e612c
    ensures Bits8(4) == 0x076dc419 && Bits8(8) == 0x0edb8832
    ensures Bits8(0x10) == 0x1db71064 && Bits8(0x20) == 0x3b6e20c8
    ensures Bits8(0x40) == 0x76dc4190 && Bits8(0x80) == 0xedb88320
  {
  }

  // A byte is the xor of its single bits.
  function Bit0(i: byte, m: byte): word { (i & m) as word }

  function LowBits(i: byte): word {
    Xor(Xor(Bit0(i, 1), Bit0(i, 2)), Xor(Bit0(i, 4), Bit0(i, 8)))
  }

  function HighBits(i: byte): word {
    Xor(Xor(Bit0(i, 0x10), Bit0(i, 0x20)), Xor(Bit0(i, 0x40), Bit0(i, 0x80)))
  }

  lemma BitsOfByte(i: byte)
    ensures i as word == Xor(LowBits(i), HighBits(i))
  {
  }

  lemma OneBit(i: byte, m: byte)
    requires m == 1 || m == 2 || m == 4 || m == 8 || m == 0x10 || m == 0x20 || m == 0x40 || m == 0x80
    ensures Bit0(i, m) == if i & m == 0 then 0 else m as word
  {
  }

  lemma BitIs(i: byte, m: byte, e: word)
    requires m == 1 || m == 2 || m == 4 || m == 8 || m == 0x10 || m == 0x20 || m == 0x40 || m == 0x80
    requires Bits8(m as word) == e && Bits8(0) == 0
    ensures Bits8(Bit0(i, m)) == Single(i, m, e)
  {
    hide Bits8, Bit0;
    OneBit(i, m);
  }

  lemma FourXor(a: word, b: word, c: word, d: word)
    ensures Bits8(Xor(Xor(a, b), Xor(c, d))) == Xor(Xor(Bits8(a), Bits8(b)), Xor(Bits8(c), Bits8(d)))
  {
    hide Bits8, Xor;
    Bits8Xor(a, b);
    Bits8Xor(c, d);
    Bits8Xor(Xor(a, b), Xor(c, d));
  }

  lemma LowIs(i: byte)
    ensures Bits8(LowBits(i)) == Low(i)
  {
    hide Bits8, Xor, Bit0, Single;
    SingleBits();
    FourXor(Bit0(i, 1), Bit0(i, 2), Bit0(i, 4), Bit0(i, 8));
    BitIs(i, 1, 0x77073096);
    BitIs(i, 2, 0xee0e612c);
    BitIs(i, 4, 0x076dc419);
    BitIs(i, 8, 0x0edb8832);
  }

  lemma HighIs(i: byte)
    ensures Bits8(HighBits(i)) == High(i)
  {
    hide Bits8, Xor, Bit0, Single;
    SingleBits();
    FourXor(Bit0(i, 0x10), Bit0(i, 0x20), Bit0(i, 0x40), Bit0(i, 0x80));
    BitIs(i, 0x10, 0x1db71064);
    BitIs(i, 0x20, 0x3b6e20c8);
    BitIs(i, 0x40, 0x76dc4190);
    BitIs(i, 0x80, 0xedb88320);
  }

  lemma BasisIs(i: byte)
    ensures Bits8(i as word) == Basis(i)
  {
    hide Bits8, Xor, LowBits, HighBits, Low, High;
    BitsOfByte(i);
    LowIs(i);
    HighIs(i);
    Bits8Xor(LowBits(i), HighBits(i));
  }
}
