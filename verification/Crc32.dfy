/** The CRC-32 of section 8 of RFC 1952, computed a byte at a time from a table. */
module Crc32 {

  type byte = bv8

  const POLYNOMIAL: bv32 := 0xEDB88320

  const ROW_0: seq<bv32> := [
    0x00000000, 0x77073096, 0xee0e612c, 0x990951ba, 0x076dc419, 0x706af48f, 0xe963a535, 0x9e6495a3,
    0x0edb8832, 0x79dcb8a4, 0xe0d5e91e, 0x97d2d988, 0x09b64c2b, 0x7eb17cbd, 0xe7b82d07, 0x90bf1d91]
  const ROW_1: seq<bv32> := [
    0x1db71064, 0x6ab020f2, 0xf3b97148, 0x84be41de, 0x1adad47d, 0x6ddde4eb, 0xf4d4b551, 0x83d385c7,
    0x136c9856, 0x646ba8c0, 0xfd62f97a, 0x8a65c9ec, 0x14015c4f, 0x63066cd9, 0xfa0f3d63, 0x8d080df5]
  const ROW_2: seq<bv32> := [
    0x3b6e20c8, 0x4c69105e, 0xd56041e4, 0xa2677172, 0x3c03e4d1, 0x4b04d447, 0xd20d85fd, 0xa50ab56b,
    0x35b5a8fa, 0x42b2986c, 0xdbbbc9d6, 0xacbcf940, 0x32d86ce3, 0x45df5c75, 0xdcd60dcf, 0xabd13d59]
  const ROW_3: seq<bv32> := [
    0x26d930ac, 0x51de003a, 0xc8d75180, 0xbfd06116, 0x21b4f4b5, 0x56b3c423, 0xcfba9599, 0xb8bda50f,
    0x2802b89e, 0x5f058808, 0xc60cd9b2, 0xb10be924, 0x2f6f7c87, 0x58684c11, 0xc1611dab, 0xb6662d3d]
  const ROW_4: seq<bv32> := [
    0x76dc4190, 0x01db7106, 0x98d220bc, 0xefd5102a, 0x71b18589, 0x06b6b51f, 0x9fbfe4a5, 0xe8b8d433,
    0x7807c9a2, 0x0f00f934, 0x9609a88e, 0xe10e9818, 0x7f6a0dbb, 0x086d3d2d, 0x91646c97, 0xe6635c01]
  const ROW_5: seq<bv32> := [
    0x6b6b51f4, 0x1c6c6162, 0x856530d8, 0xf262004e, 0x6c0695ed, 0x1b01a57b, 0x8208f4c1, 0xf50fc457,
    0x65b0d9c6, 0x12b7e950, 0x8bbeb8ea, 0xfcb9887c, 0x62dd1ddf, 0x15da2d49, 0x8cd37cf3, 0xfbd44c65]
  const ROW_6: seq<bv32> := [
    0x4db26158, 0x3ab551ce, 0xa3bc0074, 0xd4bb30e2, 0x4adfa541, 0x3dd895d7, 0xa4d1c46d, 0xd3d6f4fb,
    0x4369e96a, 0x346ed9fc, 0xad678846, 0xda60b8d0, 0x44042d73, 0x33031de5, 0xaa0a4c5f, 0xdd0d7cc9]
  const ROW_7: seq<bv32> := [
    0x5005713c, 0x270241aa, 0xbe0b1010, 0xc90c2086, 0x5768b525, 0x206f85b3, 0xb966d409, 0xce61e49f,
    0x5edef90e, 0x29d9c998, 0xb0d09822, 0xc7d7a8b4, 0x59b33d17, 0x2eb40d81, 0xb7bd5c3b, 0xc0ba6cad]
  const ROW_8: seq<bv32> := [
    0xedb88320, 0x9abfb3b6, 0x03b6e20c, 0x74b1d29a, 0xead54739, 0x9dd277af, 0x04db2615, 0x73dc1683,
    0xe3630b12, 0x94643b84, 0x0d6d6a3e, 0x7a6a5aa8, 0xe40ecf0b, 0x9309ff9d, 0x0a00ae27, 0x7d079eb1]
  const ROW_9: seq<bv32> := [
    0xf00f9344, 0x8708a3d2, 0x1e01f268, 0x6906c2fe, 0xf762575d, 0x806567cb, 0x196c3671, 0x6e6b06e7,
    0xfed41b76, 0x89d32be0, 0x10da7a5a, 0x67dd4acc, 0xf9b9df6f, 0x8ebeeff9, 0x17b7be43, 0x60b08ed5]
  const ROW_A: seq<bv32> := [
    0xd6d6a3e8, 0xa1d1937e, 0x38d8c2c4, 0x4fdff252, 0xd1bb67f1, 0xa6bc5767, 0x3fb506dd, 0x48b2364b,
    0xd80d2bda, 0xaf0a1b4c, 0x36034af6, 0x41047a60, 0xdf60efc3, 0xa867df55, 0x316e8eef, 0x4669be79]
  const ROW_B: seq<bv32> := [
    0xcb61b38c, 0xbc66831a, 0x256fd2a0, 0x5268e236, 0xcc0c7795, 0xbb0b4703, 0x220216b9, 0x5505262f,
    0xc5ba3bbe, 0xb2bd0b28, 0x2bb45a92, 0x5cb36a04, 0xc2d7ffa7, 0xb5d0cf31, 0x2cd99e8b, 0x5bdeae1d]
  const ROW_C: seq<bv32> := [
    0x9b64c2b0, 0xec63f226, 0x756aa39c, 0x026d930a, 0x9c0906a9, 0xeb0e363f, 0x72076785, 0x05005713,
    0x95bf4a82, 0xe2b87a14, 0x7bb12bae, 0x0cb61b38, 0x92d28e9b, 0xe5d5be0d, 0x7cdcefb7, 0x0bdbdf21]
  const ROW_D: seq<bv32> := [
    0x86d3d2d4, 0xf1d4e242, 0x68ddb3f8, 0x1fda836e, 0x81be16cd, 0xf6b9265b, 0x6fb077e1, 0x18b74777,
    0x88085ae6, 0xff0f6a70, 0x66063bca, 0x11010b5c, 0x8f659eff, 0xf862ae69, 0x616bffd3, 0x166ccf45]
  const ROW_E: seq<bv32> := [
    0xa00ae278, 0xd70dd2ee, 0x4e048354, 0x3903b3c2, 0xa7672661, 0xd06016f7, 0x4969474d, 0x3e6e77db,
    0xaed16a4a, 0xd9d65adc, 0x40df0b66, 0x37d83bf0, 0xa9bcae53, 0xdebb9ec5, 0x47b2cf7f, 0x30b5ffe9]
  const ROW_F: seq<bv32> := [
    0xbdbdf21c, 0xcabac28a, 0x53b39330, 0x24b4a3a6, 0xbad03605, 0xcdd70693, 0x54de5729, 0x23d967bf,
    0xb3667a2e, 0xc4614ab8, 0x5d681b02, 0x2a6f2b94, 0xb40bbe37, 0xc30c8ea1, 0x5a05df1b, 0x2d02ef8d]

  const TABLE: seq<seq<bv32>> := [
    ROW_0, ROW_1, ROW_2, ROW_3, ROW_4, ROW_5, ROW_6, ROW_7, ROW_8, ROW_9, ROW_A, ROW_B, ROW_C, ROW_D, ROW_E, ROW_F]

  /** The bitwise difference of two words. */
  function Difference(a: bv32, b: bv32): bv32 { a ^ b }

  function Half(a: bv32): bv32 { a >> 1 }

  predicate Odd(a: bv32) { a & 1 == 1 }

  /** One bit of polynomial division. */
  function BitStep(c: bv32): bv32 {
    if Odd(c) then Difference(Half(c), POLYNOMIAL) else Half(c)
  }

  function Iterate<T>(f: T -> T, c: T, n: nat): T
    decreases n
  {
    if n == 0 then c else Iterate(f, f(c), n - 1)
  }

  /** One byte of polynomial division. */
  function ByteStep(c: bv32): bv32 { Iterate(BitStep, c, 8) }

  /** A row of the table is right when it starts right and then follows row 0. */
  predicate RowFits(row: seq<bv32>, first: bv32) {
    && |row| == 16 && |ROW_0| == 16
    && row[0] == ByteStep(first)
    && forall j :: 0 <= j < 16 ==> row[j] == row[0] ^ ROW_0[j]
  }

  lemma RowFits0() ensures RowFits(ROW_0, 0x00) {}
  lemma RowFits1() ensures RowFits(ROW_1, 0x10) {}
  lemma RowFits2() ensures RowFits(ROW_2, 0x20) {}
  lemma RowFits3() ensures RowFits(ROW_3, 0x30) {}
  lemma RowFits4() ensures RowFits(ROW_4, 0x40) {}
  lemma RowFits5() ensures RowFits(ROW_5, 0x50) {}
  lemma RowFits6() ensures RowFits(ROW_6, 0x60) {}
  lemma RowFits7() ensures RowFits(ROW_7, 0x70) {}
  lemma RowFits8() ensures RowFits(ROW_8, 0x80) {}
  lemma RowFits9() ensures RowFits(ROW_9, 0x90) {}
  lemma RowFitsA() ensures RowFits(ROW_A, 0xA0) {}
  lemma RowFitsB() ensures RowFits(ROW_B, 0xB0) {}
  lemma RowFitsC() ensures RowFits(ROW_C, 0xC0) {}
  lemma RowFitsD() ensures RowFits(ROW_D, 0xD0) {}
  lemma RowFitsE() ensures RowFits(ROW_E, 0xE0) {}
  lemma RowFitsF() ensures RowFits(ROW_F, 0xF0) {}

  /** Every row of the table starts with its multiple of sixteen. */
  lemma RowsFit(h: bv32)
    requires h < 16
    ensures |TABLE| == 16 && RowFits(TABLE[h as nat], h << 4)
  {
    if h == 0 {
      RowFits0();
    } else if h == 1 {
      RowFits1();
    } else if h == 2 {
      RowFits2();
    } else if h == 3 {
      RowFits3();
    } else if h == 4 {
      RowFits4();
    } else if h == 5 {
      RowFits5();
    } else if h == 6 {
      RowFits6();
    } else if h == 7 {
      RowFits7();
    } else if h == 8 {
      RowFits8();
    } else if h == 9 {
      RowFits9();
    } else if h == 10 {
      RowFitsA();
    } else if h == 11 {
      RowFitsB();
    } else if h == 12 {
      RowFitsC();
    } else if h == 13 {
      RowFitsD();
    } else if h == 14 {
      RowFitsE();
    } else {
      RowFitsF();
    }
  }

  lemma FirstRowFits(l: bv32)
    requires l < 16
    ensures |ROW_0| == 16 && ROW_0[l as nat] == ByteStep(l)
  {
  }

  lemma DifferenceParity(a: bv32, b: bv32)
    ensures Odd(Difference(a, b)) <==> Odd(a) != Odd(b)
  {
  }

  lemma DifferenceHalf(a: bv32, b: bv32)
    ensures Half(Difference(a, b)) == Difference(Half(a), Half(b))
  {
  }

  lemma DifferenceReorders(c: bv32, x: bv32, y: bv32)
    ensures Difference(c, Difference(x, y)) == Difference(Difference(c, y), x)
    ensures Difference(x, y) == Difference(y, x)
  {
  }

  lemma DifferenceCancels(x: bv32, p: bv32)
    ensures Difference(Difference(x, p), p) == x
  {
  }

  lemma DifferenceOfShifted(x: bv32, y: bv32, p: bv32)
    ensures Difference(Difference(x, p), Difference(y, p)) == Difference(x, y)
    ensures Difference(Difference(x, p), y) == Difference(Difference(x, y), p)
    ensures Difference(x, Difference(y, p)) == Difference(Difference(x, y), p)
  {
    hide Difference;
    DifferenceReorders(Difference(x, p), y, p);
    DifferenceCancels(x, p);
    DifferenceReorders(x, y, p);
    DifferenceReorders(p, x, y);
    DifferenceReorders(x, p, Difference(x, y));
    DifferenceReorders(y, x, p);
    DifferenceReorders(x, y, Difference(x, p));
  }

  lemma BitStepLinear(a: bv32, b: bv32)
    ensures BitStep(Difference(a, b)) == Difference(BitStep(a), BitStep(b))
  {
    hide Difference, Half, Odd;
    DifferenceParity(a, b);
    DifferenceHalf(a, b);
    DifferenceOfShifted(Half(a), Half(b), POLYNOMIAL);
  }

  /** `f` commutes with `op` at one pair of arguments. */
  ghost predicate Commutes<T>(f: T -> T, op: (T, T) -> T, a: T, b: T) {
    f(op(a, b)) == op(f(a), f(b))
  }

  lemma {:induction false} IterateCommutes<T(!new)>(f: T -> T, op: (T, T) -> T, a: T, b: T, n: nat)
    requires forall x, y :: Commutes(f, op, x, y)
    ensures Iterate(f, op(a, b), n) == op(Iterate(f, a, n), Iterate(f, b, n))
    decreases n
  {
    if n > 0 {
      assert Commutes(f, op, a, b);
      IterateCommutes(f, op, f(a), f(b), n - 1);
    }
  }

  lemma BitStepCommutes(a: bv32, b: bv32)
    ensures Commutes(BitStep, Difference, a, b)
  {
    hide BitStep, Difference;
    BitStepLinear(a, b);
  }

  /** Division is linear over bitwise difference. */
  lemma ByteStepLinear(a: bv32, b: bv32)
    ensures ByteStep(Difference(a, b)) == Difference(ByteStep(a), ByteStep(b))
  {
    hide BitStep, Iterate, Difference;
    forall x, y ensures Commutes(BitStep, Difference, x, y) {
      BitStepCommutes(x, y);
    }
    IterateCommutes(BitStep, Difference, a, b, 8);
  }

  function TableEntry(i: bv32): bv32
    requires i < 256
  {
    RowsFit(i >> 4);
    TABLE[(i >> 4) as nat][(i & 15) as nat]
  }

  lemma SplitByte(i: bv32)
    ensures Difference((i >> 4) << 4, i & 15) == i
  {
  }

  /** The table holds, for every byte, eight steps of polynomial division. */
  lemma TableIsByteStep(i: bv32)
    requires i < 256
    ensures TableEntry(i) == ByteStep(i)
  {
    hide BitStep, Iterate;
    RowsFit(i >> 4);
    FirstRowFits(i & 15);
    ByteStepLinear((i >> 4) << 4, i & 15);
    SplitByte(i);
  }

  /** Bits above the lowest byte are only shifted. */
  lemma ShiftOut(w: bv32)
    ensures ByteStep((w >> 8) << 8) == w >> 8
  {
  }

  lemma SplitWord(w: bv32)
    ensures Difference(w & 0xFF, (w >> 8) << 8) == w
  {
  }

  /** One table step is eight steps of polynomial division. */
  lemma TableStep(c: bv32)
    ensures Difference(TableEntry(c & 0xFF), c >> 8) == ByteStep(c)
  {
    hide BitStep, Iterate, Difference;
    TableIsByteStep(c & 0xFF);
    ShiftOut(c);
    SplitWord(c);
    ByteStepLinear(c & 0xFF, (c >> 8) << 8);
  }

  function Fold(c: bv32, b: byte): bv32 { Difference(c, b as bv32) }

  function Complement(c: bv32): bv32 { c ^ 0xFFFF_FFFF }

  /** The reference: fold every byte into the low end and divide by eight bits. */
  function Absorb(c: bv32, data: seq<byte>): bv32
    decreases |data|
  {
    if data == [] then c else Absorb(ByteStep(Fold(c, data[0])), data[1..])
  }

  /** The checksum of `data`, continuing from `crc`. */
  function Crc(crc: bv32, data: seq<byte>): bv32 {
    Complement(Absorb(Complement(crc), data))
  }

  lemma {:induction false} AbsorbAppend(c: bv32, a: seq<byte>, b: seq<byte>)
    ensures Absorb(c, a + b) == Absorb(Absorb(c, a), b)
    decreases |a|
  {
    hide ByteStep, Fold;
    if a == [] {
      assert a + b == b;
    } else {
      assert (a + b)[1..] == a[1..] + b;
      AbsorbAppend(ByteStep(Fold(c, a[0])), a[1..], b);
    }
  }

  lemma ComplementTwice(c: bv32)
    ensures Complement(Complement(c)) == c
  {
  }

  /** Checksums can be computed in chunks of any size. */
  lemma CrcByChunks(crc: bv32, a: seq<byte>, b: seq<byte>)
    ensures Crc(Crc(crc, a), b) == Crc(crc, a + b)
  {
    hide Absorb, Complement;
    AbsorbAppend(Complement(crc), a, b);
    ComplementTwice(Absorb(Complement(crc), a));
  }

  /** One round of the table-driven loop. */
  function TableRound(c: bv32, b: byte): bv32 {
    Difference(TableEntry(Fold(c, b) & 0xFF), c >> 8)
  }

  lemma HighBytesKept(c: bv32, b: byte)
    ensures Fold(c, b) >> 8 == c >> 8
  {
  }

  lemma TableRoundIsByteStep(c: bv32, b: byte)
    ensures TableRound(c, b) == ByteStep(Fold(c, b))
  {
    hide ByteStep, Fold, Difference, TableEntry;
    HighBytesKept(c, b);
    TableStep(Fold(c, b));
  }

  /** The table-driven loop computes the reference checksum. */
  method CalcCrc32(crc: bv32, buf: seq<byte>) returns (r: bv32)
    ensures r == Crc(crc, buf)
  {
    hide ByteStep, TableRound, Fold, Complement;
    var c := Complement(crc);
    for i := 0 to |buf|
      invariant c == Absorb(Complement(crc), buf[..i])
    {
      AbsorbOne(Complement(crc), buf, i);
      TableRoundIsByteStep(c, buf[i]);
      c := TableRound(c, buf[i]);
    }
    assert buf[..|buf|] == buf;
    return Complement(c);
  }

  lemma AbsorbOne(c: bv32, buf: seq<byte>, i: nat)
    requires i < |buf|
    ensures Absorb(c, buf[..i + 1]) == ByteStep(Fold(Absorb(c, buf[..i]), buf[i]))
  {
    hide ByteStep, Fold;
    assert buf[..i + 1] == buf[..i] + [buf[i]];
    AbsorbAppend(c, buf[..i], [buf[i]]);
  }

  // ---- Detection of bursts ----

  lemma BitStepInjective(a: bv32, b: bv32)
    requires BitStep(a) == BitStep(b)
    ensures a == b
  {
  }

  lemma {:induction false} IterateInjective<T(!new)>(f: T -> T, a: T, b: T, n: nat)
    requires forall x, y :: f(x) == f(y) ==> x == y
    requires Iterate(f, a, n) == Iterate(f, b, n)
    ensures a == b
    decreases n
  {
    if n > 0 {
      IterateInjective(f, f(a), f(b), n - 1);
    }
  }

  lemma ByteStepInjective(a: bv32, b: bv32)
    requires ByteStep(a) == ByteStep(b)
    ensures a == b
  {
    hide BitStep, Iterate;
    forall x, y | BitStep(x) == BitStep(y) ensures x == y {
      BitStepInjective(x, y);
    }
    IterateInjective(BitStep, a, b, 8);
  }

  lemma FoldInjective(c: bv32, d: bv32, b: byte)
    requires Fold(c, b) == Fold(d, b)
    ensures c == d
  {
  }

  /** Reading the same bytes never makes two different states equal. */
  lemma {:induction false} AbsorbInjective(c: bv32, d: bv32, data: seq<byte>)
    requires Absorb(c, data) == Absorb(d, data)
    ensures c == d
    decreases |data|
  {
    hide ByteStep, Fold;
    if data != [] {
      var c', d' := Fold(c, data[0]), Fold(d, data[0]);
      AbsorbInjective(ByteStep(c'), ByteStep(d'), data[1..]);
      ByteStepInjective(c', d');
      FoldInjective(c, d, data[0]);
    }
  }

  /** Up to four bytes as a little-endian word. */
  function Word(s: seq<byte>): bv32
    decreases |s|
  {
    if s == [] then 0 else Prepend(s[0], Word(s[1..]))
  }

  function Prepend(b: byte, w: bv32): bv32 { Difference(w << 8, b as bv32) }

  predicate Fits(w: bv32, bytes: nat) {
    (bytes == 0 ==> w == 0) && (bytes == 1 ==> w < 0x100) && (bytes == 2 ==> w < 0x1_0000)
        && (bytes == 3 ==> w < 0x100_0000)
  }

  lemma PrependFits(b: byte, w: bv32, n: nat)
    requires n < 4 && Fits(w, n)
    ensures Fits(Prepend(b, w), n + 1)
  {
  }

  lemma {:induction false} WordFits(s: seq<byte>)
    requires |s| <= 4
    ensures Fits(Word(s), |s|)
    decreases |s|
  {
    hide Fits, Prepend;
    if s != [] {
      WordFits(s[1..]);
      PrependFits(s[0], Word(s[1..]), |s| - 1);
    } else {
      EmptyFits();
    }
  }

  lemma EmptyFits()
    ensures Fits(0, 0)
  {
  }

  lemma PrependInjective(a: byte, v: bv32, b: byte, w: bv32, n: nat)
    requires n < 4 && Fits(v, n) && Fits(w, n) && Prepend(a, v) == Prepend(b, w)
    ensures a == b && v == w
  {
  }

  lemma {:induction false} WordInjective(s: seq<byte>, t: seq<byte>)
    requires |s| == |t| <= 4 && Word(s) == Word(t)
    ensures s == t
    decreases |s|
  {
    hide Fits, Prepend;
    if s != [] {
      WordFits(s[1..]);
      WordFits(t[1..]);
      PrependInjective(s[0], Word(s[1..]), t[0], Word(t[1..]), |s| - 1);
      WordInjective(s[1..], t[1..]);
      assert s == [s[0]] + s[1..] && t == [t[0]] + t[1..];
    }
  }

  lemma DifferencePrepend(c: bv32, b: byte, w: bv32)
    ensures Difference(c, Prepend(b, w)) == Difference(Fold(c, b), w << 8)
  {
    hide Difference;
    DifferenceReorders(c, w << 8, b as bv32);
  }

  lemma ShiftedWordStep(w: bv32, n: nat)
    requires n < 4 && Fits(w, n)
    ensures ByteStep(w << 8) == w
  {
  }

  lemma ByteStepPrepend(c: bv32, b: byte, w: bv32, n: nat)
    requires n < 4 && Fits(w, n)
    ensures ByteStep(Difference(c, Prepend(b, w))) == Difference(ByteStep(Fold(c, b)), w)
  {
    hide *;
    DifferencePrepend(c, b, w);
    ByteStepLinear(Fold(c, b), w << 8);
    ShiftedWordStep(w, n);
  }

  /** Reading up to four bytes is folding one word and dividing by that many bytes. */
  lemma {:induction false} AbsorbWord(c: bv32, s: seq<byte>)
    requires |s| <= 4
    ensures Absorb(c, s) == Iterate(ByteStep, Difference(c, Word(s)), |s|)
    decreases |s|
  {
    hide ByteStep, Fold, Fits, Prepend, Difference;
    if s != [] {
      WordFits(s[1..]);
      ByteStepPrepend(c, s[0], Word(s[1..]), |s| - 1);
      AbsorbWord(ByteStep(Fold(c, s[0])), s[1..]);
    } else {
      NoDifference(c);
    }
  }

  lemma NoDifference(c: bv32)
    ensures Difference(c, 0) == c
  {
  }

  lemma DifferenceInjective(c: bv32, v: bv32, w: bv32)
    requires Difference(c, v) == Difference(c, w)
    ensures v == w
  {
  }

  lemma AbsorbSeparates(c: bv32, s: seq<byte>, t: seq<byte>)
    requires |s| == |t| <= 4 && Absorb(c, s) == Absorb(c, t)
    ensures s == t
  {
    hide ByteStep, Absorb, Difference, Word, Iterate;
    AbsorbWord(c, s);
    AbsorbWord(c, t);
    forall x, y | ByteStep(x) == ByteStep(y) ensures x == y {
      ByteStepInjective(x, y);
    }
    IterateInjective(ByteStep, Difference(c, Word(s)), Difference(c, Word(t)), |s|);
    DifferenceInjective(c, Word(s), Word(t));
    WordInjective(s, t);
  }

  /** Two messages of equal length that differ only inside a window of four bytes. */
  ghost predicate DifferInWindow(a: seq<byte>, b: seq<byte>, start: nat) {
    && |a| == |b| && a != b
    && forall i :: 0 <= i < |a| && !(start <= i < start + 4) ==> a[i] == b[i]
  }

  /** Every burst of up to four damaged bytes changes the checksum, in messages of any length. */
  lemma DetectsBurst(crc: bv32, a: seq<byte>, b: seq<byte>, start: nat)
    requires DifferInWindow(a, b, start)
    ensures Crc(crc, a) != Crc(crc, b)
  {
    hide Absorb, Complement;
    var lo := if start <= |a| then start else |a|;
    var hi := if start + 4 <= |a| then start + 4 else |a|;
    var c := Absorb(Complement(crc), a[..lo]);
    assert a[..lo] == b[..lo] && a[hi..] == b[hi..];
    assert a == a[..lo] + a[lo..hi] + a[hi..] && b == b[..lo] + b[lo..hi] + b[hi..];
    AbsorbInThree(Complement(crc), a, lo, hi);
    AbsorbInThree(Complement(crc), b, lo, hi);
    if Crc(crc, a) == Crc(crc, b) {
      ComplementTwice(Absorb(Complement(crc), a));
      ComplementTwice(Absorb(Complement(crc), b));
      AbsorbInjective(Absorb(c, a[lo..hi]), Absorb(c, b[lo..hi]), a[hi..]);
      AbsorbSeparates(c, a[lo..hi], b[lo..hi]);
    }
  }

  lemma AbsorbInThree(c: bv32, a: seq<byte>, lo: nat, hi: nat)
    requires lo <= hi <= |a|
    ensures Absorb(c, a) == Absorb(Absorb(Absorb(c, a[..lo]), a[lo..hi]), a[hi..])
  {
    hide Absorb;
    AbsorbAppend(c, a[..lo], a[lo..hi]);
    AbsorbAppend(c, a[..lo] + a[lo..hi], a[hi..]);
    assert a[..lo] + a[lo..hi] + a[hi..] == a;
  }
}
