/** A run in which a second magic word in an incomplete record loses a key: the checksum of the record happens to be
    the magic word, and reading it as that of another header damages the length of the record. */
module KvSecondMagic {
  import opened KvStore
  import opened KvCollect
  import opened Crc32
  import opened FlashBytes
  import opened FlashNumbers
  import opened StatusTable
  import opened RecordBytes
  import opened KvWalks
  import opened KvScans
  import opened KvSpoils
  import opened KvLossBytes
  import opened Wrappers

  /** "k", its old value, "old" with an erased byte behind it, and a new one. */
  const KEY: Bytes := [0x6B]
  const OLD: Bytes := [0x6F, 0x6C, 0x64, 0xFF]
  const NEW: Bytes := [0x7D, 0xE4, 0xA0, 0xC7]

  /** Twenty bytes from the magic word on are the header. */
  const HEADER_CUT: nat := 20

  // ---- The checksum ----

  const LENGTHS: Bytes := [0x01, 0xFF, 0xFF, 0xFF, 0x04, 0x00, 0x00, 0x00]

  lemma LengthSteps()
    ensures ByteStep(Fold(0xFFFFFFFF, 0x01)) == 0x5AFA20E4 && ByteStep(Fold(0x5AFA20E4, 0xFF)) == 0x8A3F33CC
    ensures ByteStep(Fold(0x8A3F33CC, 0xFF)) == 0xBF5A5E25 && ByteStep(Fold(0xBF5A5E25, 0xFF)) == 0x66B96194
    ensures ByteStep(Fold(0x66B96194, 0x04)) == 0xF0692A25 && ByteStep(Fold(0xF0692A25, 0x00)) == 0x4BF4BD6D
    ensures ByteStep(Fold(0x4BF4BD6D, 0x00)) == 0x3348E958 && ByteStep(Fold(0x3348E958, 0x00)) == 0x6583912F
  {
  }

  lemma DataSteps()
    ensures ByteStep(Fold(0x6583912F, 0x6B)) == 0x71D40618 && ByteStep(Fold(0x71D40618, 0x7D)) == 0x3DA941D1
    ensures ByteStep(Fold(0x3DA941D1, 0xE4)) == 0x568E6D62 && ByteStep(Fold(0x568E6D62, 0xA0)) == 0x753C2DF1
    ensures ByteStep(Fold(0x753C2DF1, 0xC7)) == 0xCFCFA9B4
  {
  }

  lemma ErasedSteps()
    ensures ByteStep(Fold(0x6583912F, 0xFF)) == 0x86B65145 && ByteStep(Fold(0x86B65145, 0xFF)) == 0x2B32ECC3
    ensures ByteStep(Fold(0x2B32ECC3, 0xFF)) == 0x2F444E6B && ByteStep(Fold(0x2F444E6B, 0xFF)) == 0xF74D1313
    ensures ByteStep(Fold(0xF74D1313, 0xFF)) == 0xA94BE340
  {
  }

  lemma LengthsAbsorbed()
    ensures Absorb(0xFFFFFFFF, LENGTHS) == 0x6583912F
  {
    hide ByteStep, Fold, Absorb;
    LengthSteps();
    AbsorbNone(0xFFFFFFFF);
    assert LENGTHS[..0] == [] && LENGTHS[..8] == LENGTHS;
    AbsorbOne(0xFFFFFFFF, LENGTHS, 0);
    AbsorbOne(0xFFFFFFFF, LENGTHS, 1);
    AbsorbOne(0xFFFFFFFF, LENGTHS, 2);
    AbsorbOne(0xFFFFFFFF, LENGTHS, 3);
    AbsorbOne(0xFFFFFFFF, LENGTHS, 4);
    AbsorbOne(0xFFFFFFFF, LENGTHS, 5);
    AbsorbOne(0xFFFFFFFF, LENGTHS, 6);
    AbsorbOne(0xFFFFFFFF, LENGTHS, 7);
  }

  lemma FiveAbsorbed(data: Bytes, c1: bv32, c2: bv32, c3: bv32, c4: bv32, c5: bv32)
    requires |data| == 5
    requires c1 == ByteStep(Fold(0x6583912F, data[0])) && c2 == ByteStep(Fold(c1, data[1]))
    requires c3 == ByteStep(Fold(c2, data[2])) && c4 == ByteStep(Fold(c3, data[3])) && c5 == ByteStep(Fold(c4, data[4]))
    ensures Crc(0, LENGTHS + data) == Complement(c5)
  {
    hide ByteStep, Fold, Absorb;
    LengthsAbsorbed();
    AbsorbAppend(0xFFFFFFFF, LENGTHS, data);
    AbsorbNone(0x6583912F);
    assert data[..0] == [] && data[..5] == data;
    AbsorbOne(0x6583912F, data, 0);
    AbsorbOne(0x6583912F, data, 1);
    AbsorbOne(0x6583912F, data, 2);
    AbsorbOne(0x6583912F, data, 3);
    AbsorbOne(0x6583912F, data, 4);
  }

  const ERASED_DATA: Bytes := [0xFF, 0xFF, 0xFF, 0xFF, 0xFF]

  /** The checksum of the new record is the magic word; that of its lengths with erased data is not. */
  lemma Checksums()
    ensures Crc(0, LENGTHS + (KEY + NEW)) == 0x3030564B
    ensures Crc(0, LENGTHS + ERASED_DATA) == 0x56B41CBF
  {
    hide ByteStep, Fold, Absorb, Crc;
    DataSteps();
    ErasedSteps();
    FiveAbsorbed(KEY + NEW, 0x71D40618, 0x3DA941D1, 0x568E6D62, 0x753C2DF1, 0xCFCFA9B4);
    FiveAbsorbed(ERASED_DATA, 0x86B65145, 0x2B32ECC3, 0x2F444E6B, 0xF74D1313, 0xA94BE340);
  }

  lemma OneByte()
    ensures ByteOf(0) == 0x00 && ByteOf(1) == 0x01
  {
  }

  lemma TwoBytes()
    ensures ByteOf(4) == 0x04 && ByteOf(29) == 0x1D
  {
  }

  lemma Lengths()
    ensures NameLenField(KEY) + NatBytes(4) == LENGTHS && NatBytes(29) == [0x1D, 0x00, 0x00, 0x00]
  {
    hide ByteOf;
    OneByte();
    TwoBytes();
  }

  lemma ChecksumBytes()
    ensures WordBytes(0x3030564B) == MAGIC && WordOf(MAGIC) == 0x3030564B
  {
  }

  /** The header of the new record, from its magic word on. */
  const NEW_HEADER: Bytes := MAGIC + [0x1D, 0x00, 0x00, 0x00] + MAGIC + LENGTHS

  lemma HeaderOfNew()
    ensures |RecordData(KEY, NEW)| == 25 && RecordData(KEY, NEW)[..HEADER_CUT] == NEW_HEADER
    ensures MagicIn(RecordData(KEY, NEW), 8) && !PassedOver(KEY, NEW, HEADER_CUT)
  {
    hide Crc, NatBytes, WordBytes, NameLenField, PassedOver;
    Checksums();
    Lengths();
    ChecksumBytes();
    assert Payload(KEY, NEW) == LENGTHS + (KEY + NEW);
    assert Header(KEY, NEW) == MAGIC + [0x1D, 0x00, 0x00, 0x00] + MAGIC;
    assert RecordData(KEY, NEW) == NEW_HEADER + (KEY + NEW);
    assert RecordData(KEY, NEW)[8..12] == MAGIC;
    NotPassed(8);
  }

  lemma NotPassed(q: nat)
    requires 1 <= q && q + 4 <= HEADER_CUT && q + 4 <= RecordSize(KEY, NEW) - 4 && MagicIn(RecordData(KEY, NEW), q)
    ensures !PassedOver(KEY, NEW, HEADER_CUT)
  {
    hide RecordData, MagicIn;
  }

  // ---- What a walk visits ----

  /** A record, or what is taken for one: its address, the length that counts, and whether its checksum is right. */
  datatype Visit = Visit(at: nat, len: nat, ok: bool) {
    /** Where the search for the next one begins. */
    function Behind(): nat { if ok then at + len else at + 1 }
  }

  ghost predicate ReadsLike(f: Bytes, maxSize: nat, v: Visit) {
    forall status, kv :: 0 <= status < KV_STATUS_NUM && Reads(f, v.at, maxSize, status, kv) ==>
      kv.len == v.len && kv.crcOk == v.ok
  }

  ghost predicate NextIs(f: Bytes, from: nat, at: nat) {
    from <= at && MagicAt(f, at + 4) && forall p :: from + 4 <= p < at + 4 ==> !MagicAt(f, p)
  }

  ghost predicate NoneFrom(f: Bytes, from: nat) { forall p :: from + 4 <= p ==> !MagicAt(f, p) }

  /** A walk of the sector visits these, and no others. */
  ghost predicate Walks(f: Bytes, maxSize: nat, visits: seq<Visit>) {
    && visits != [] && visits[0].at == SECTOR_HDR_SIZE
    && (forall k :: 0 <= k < |visits| ==> ReadsLike(f, maxSize, visits[k]))
    && (forall k :: 0 <= k < |visits| - 1 ==> NextIs(f, visits[k].Behind(), visits[k + 1].at))
    && NoneFrom(f, visits[|visits| - 1].Behind())
  }

  /** Where the lengths that a walk adds up end. */
  function WalkSum(visits: seq<Visit>): nat {
    if visits == [] then SECTOR_HDR_SIZE else WalkSum(visits[..|visits| - 1]) + visits[|visits| - 1].len
  }

  // ---- The flash when power is lost, and after the next start ----

  /** The old record of "k" is the first one, and what is behind it erased. */
  ghost predicate Before(f: Bytes) {
    512 <= |f| < SECTOR_LIMIT && LiesAt(f, 16, KEY, OLD) && ErasedFrom(f, 45, |f| - 45)
  }

  /** Power is lost after the header of the new record. */
  ghost predicate AtLoss(f: Bytes, f1: Bytes) {
    Before(f) && Begun(f, f1, 45, RecordData(KEY, NEW), HEADER_CUT)
  }

  /** What the start does: it marks what it takes for a header at 53 and the incomplete record, and copies the old
      record to where its walk ended. */
  ghost predicate AfterStart(medium: Medium, f1: Bytes, f2: Bytes) {
    && |f2| == |f1| && 512 <= |f1| && LiesAt(f2, 98, KEY, OLD) && LowBitsErased(f2[98])
    && f2[53] == medium.Program(f1[53], BYTE_ERASED & Mask(StatusIndex(ErrHdr)))
    && forall p :: 0 <= p < |f1| && p != 16 && p != 45 && p != 53 && !(98 <= p < 127) ==> f2[p] == f1[p]
  }

  lemma BytesAtLoss(f: Bytes, f1: Bytes)
    requires AtLoss(f, f1)
    ensures |f1| == |f| && forall p :: 49 <= p < 69 ==> f1[p] == NEW_HEADER[p - 49]
    ensures forall p :: 46 <= p < 49 || 69 <= p < |f1| ==> f1[p] == BYTE_ERASED
    ensures LiesAt(f1, 16, KEY, OLD)
  {
    hide RecordData, LiesAt;
    HeaderOfNew();
    assert forall i :: 0 <= i < 20 ==> RecordData(KEY, NEW)[i] == RecordData(KEY, NEW)[..HEADER_CUT][i];
    LiesUnchanged(f, f1, 16, KEY, OLD);
  }

  // ---- Reading ----

  lemma IntactRead(f: Bytes, maxSize: nat, at: nat)
    requires LiesAt(f, at, KEY, OLD) && 512 <= maxSize
    ensures ReadsLike(f, maxSize, Visit(at, 29, true))
  {
    hide LiesAt, Reads;
    forall status, kv | 0 <= status < KV_STATUS_NUM && Reads(f, at, maxSize, status, kv)
      ensures kv.len == 29 && kv.crcOk
    {
      ReadsBack(f, at, maxSize, status, kv, KEY, OLD);
    }
  }

  /** A length that cannot be is taken for that of a bare header. */
  lemma BadLengthRead(f: Bytes, maxSize: nat, at: nat)
    requires !LenPlausible(NatOf(Slice(f, at + 8, 4)), maxSize)
    ensures ReadsLike(f, maxSize, Visit(at, 24, false))
  {
    hide NatOf, Crc, WordOf, Value;
  }

  lemma IncompleteRead(f: Bytes, f1: Bytes, maxSize: nat)
    requires AtLoss(f, f1) && 512 <= maxSize
    ensures ReadsLike(f1, maxSize, Visit(45, 29, false))
  {
    hide NatOf, NatBytes, Crc, WordOf, WordBytes, Value, Before, Begun, LiesAt;
    BytesAtLoss(f, f1);
    Checksums();
    ChecksumBytes();
    Lengths();
    NatRoundTrip(29);
    assert |f1| >= 512 by {
      LongEnough(f, f1);
    }
    assert Slice(f1, 53, 4) == [0x1D, 0x00, 0x00, 0x00];
    assert Slice(f1, 57, 4) == MAGIC;
    assert Slice(f1, 61, 13) == LENGTHS + ERASED_DATA;
  }

  lemma LongEnough(f: Bytes, f1: Bytes)
    requires AtLoss(f, f1)
    ensures |f1| >= 512
  {
    hide LiesAt, RecordData;
  }

  lemma NoLengthThere(s: Bytes)
    requires |s| == 4 && s[3] == 0xFF
    ensures NatOf(s) >= LEN_LIMIT
  {
    hide Value;
    ErasedIsHighest();
  }

  /** Where the length of the record is marked as if it were a status, hardly any length is left. */
  lemma MarkedLength(medium: Medium, s: Bytes)
    requires |s| == 4 && s[0] == medium.Program(0x1D, BYTE_ERASED & Mask(StatusIndex(ErrHdr)))
    requires s[1] == s[2] == s[3] == 0x00
    ensures NatOf(s) < KV_HDR_SIZE && s[0] != 0x4B
  {
    assert s[0] == 0x05 || s[0] == 0x07;
    SmallValues();
  }

  lemma SmallValues()
    ensures Value(0x00) == 0 && Value(0x05) == 5 && Value(0x07) == 7
  {
  }

  // ---- The two walks ----

  /** The walk of the start takes the checksum of the new record for the magic word of another one, and so ends 24
      bytes behind the new record. */
  lemma FirstWalk(f: Bytes, f1: Bytes, maxSize: nat)
    requires AtLoss(f, f1) && 512 <= maxSize < LEN_LIMIT
    ensures var visits := [Visit(16, 29, true), Visit(45, 29, false), Visit(53, 24, false)];
            Walks(f1, maxSize, visits) && WalkSum(visits) == 98
  {
    hide NatOf, AtLoss, LiesAt, Reads, ReadsLike;
    BytesAtLoss(f, f1);
    LongEnough(f, f1);
    IntactRead(f1, maxSize, 16);
    IncompleteRead(f, f1, maxSize);
    NoLengthThere(Slice(f1, 61, 4));
    BadLengthRead(f1, maxSize, 53);
    FirstLinks(f1);
    var visits := [Visit(16, 29, true), Visit(45, 29, false), Visit(53, 24, false)];
    SumOfThree(visits);
  }

  lemma SumOfThree(v: seq<Visit>)
    requires |v| == 3
    ensures WalkSum(v) == SECTOR_HDR_SIZE + v[0].len + v[1].len + v[2].len
  {
    assert v[..1][..0] == [];
    assert WalkSum(v[..1]) == SECTOR_HDR_SIZE + v[0].len;
    assert v[..2][..1] == v[..1];
    assert WalkSum(v[..2]) == SECTOR_HDR_SIZE + v[0].len + v[1].len;
  }

  lemma FirstLinks(f1: Bytes)
    requires |f1| >= 512 && forall p :: 49 <= p < 69 ==> f1[p] == NEW_HEADER[p - 49]
    requires forall p :: 69 <= p < |f1| ==> f1[p] == BYTE_ERASED
    ensures NextIs(f1, 45, 45) && NextIs(f1, 46, 53) && NoneFrom(f1, 54)
  {
    assert Slice(f1, 49, 4) == MAGIC && Slice(f1, 57, 4) == MAGIC;
    forall p | 50 <= p < 57 || 58 <= p ensures !MagicAt(f1, p) {
      NoMagicAtByte(f1, p);
    }
  }

  /** The next walk reads that record as a bare header, and so its lengths end before the end of the copy. */
  lemma SecondWalk(medium: Medium, f: Bytes, f1: Bytes, f2: Bytes, maxSize: nat)
    requires AtLoss(f, f1) && AfterStart(medium, f1, f2) && 512 <= maxSize < LEN_LIMIT
    ensures var visits := [Visit(16, 29, true), Visit(45, 24, false), Visit(53, 24, false), Visit(98, 29, true)];
            Walks(f2, maxSize, visits) && WalkSum(visits) == 122
  {
    hide NatOf, AtLoss, Reads, ReadsLike, Mask;
    BytesAtLoss(f, f1);
    LongEnough(f, f1);
    SecondReads(medium, f1, f2, maxSize);
    SecondLinks(medium, f1, f2);
    var visits := [Visit(16, 29, true), Visit(45, 24, false), Visit(53, 24, false), Visit(98, 29, true)];
    assert visits[..3] == [Visit(16, 29, true), Visit(45, 24, false), Visit(53, 24, false)];
    SumOfThree(visits[..3]);
  }

  /** The bytes at the loss that matter. */
  ghost predicate HeaderLies(f1: Bytes) {
    && |f1| >= 512 && (forall p :: 49 <= p < 69 ==> f1[p] == NEW_HEADER[p - 49])
    && forall p :: 69 <= p < |f1| ==> f1[p] == BYTE_ERASED
  }

  lemma SecondReads(medium: Medium, f1: Bytes, f2: Bytes, maxSize: nat)
    requires HeaderLies(f1) && AfterStart(medium, f1, f2) && LiesAt(f1, 16, KEY, OLD) && 512 <= maxSize < LEN_LIMIT
    ensures ReadsLike(f2, maxSize, Visit(16, 29, true)) && ReadsLike(f2, maxSize, Visit(45, 24, false))
    ensures ReadsLike(f2, maxSize, Visit(53, 24, false)) && ReadsLike(f2, maxSize, Visit(98, 29, true))
  {
    hide NatOf, LiesAt, Reads, ReadsLike, Mask;
    OldStays(f1, f2);
    IntactRead(f2, maxSize, 16);
    IntactRead(f2, maxSize, 98);
    NoLengthThere(Slice(f2, 61, 4));
    BadLengthRead(f2, maxSize, 53);
    MarkedLength(medium, Slice(f2, 53, 4));
    BadLengthRead(f2, maxSize, 45);
  }

  lemma OldStays(f1: Bytes, f2: Bytes)
    requires LiesAt(f1, 16, KEY, OLD) && |f2| == |f1| && 512 <= |f1|
    requires forall p :: 16 < p < 45 ==> f2[p] == f1[p]
    ensures LiesAt(f2, 16, KEY, OLD)
  {
    hide LiesAt;
    var g := f1[16 := f2[16]];
    StatusByteOnly(f1, g, 16, KEY, OLD);
    LiesUnchanged(g, f2, 16, KEY, OLD);
  }

  lemma SecondLinks(medium: Medium, f1: Bytes, f2: Bytes)
    requires HeaderLies(f1) && AfterStart(medium, f1, f2)
    ensures NextIs(f2, 45, 45) && NextIs(f2, 46, 53) && NextIs(f2, 54, 98) && NoneFrom(f2, 127)
  {
    hide Mask, MagicAt, HeaderLies, AfterStart, LiesAt;
    NoneInLength(medium, f1, f2);
    NoneInRest(medium, f1, f2);
    LiesAtCopy(medium, f1, f2);
    NoneInStatus(f2, 98, KEY, OLD);
  }

  lemma LiesAtCopy(medium: Medium, f1: Bytes, f2: Bytes)
    requires AfterStart(medium, f1, f2)
    ensures 98 < |f2| && LowBitsErased(f2[98]) && LiesAt(f2, 98, KEY, OLD)
  {
    hide LiesAt, Mask;
  }

  lemma NoneInLength(medium: Medium, f1: Bytes, f2: Bytes)
    requires HeaderLies(f1) && AfterStart(medium, f1, f2)
    ensures MagicAt(f2, 49) && forall p :: 50 <= p < 57 ==> !MagicAt(f2, p)
  {
    hide Mask, LiesAt;
    MarkedLength(medium, [f2[53], 0x00, 0x00, 0x00]);
    assert Slice(f2, 49, 4) == MAGIC;
    forall p | 50 <= p < 57 ensures !MagicAt(f2, p) {
      NoMagicAtByte(f2, p);
    }
  }

  lemma NoneInRest(medium: Medium, f1: Bytes, f2: Bytes)
    requires HeaderLies(f1) && AfterStart(medium, f1, f2)
    ensures MagicAt(f2, 57) && forall p :: 58 <= p < 98 || 127 <= p ==> !MagicAt(f2, p)
  {
    hide Mask, LiesAt;
    assert Slice(f2, 57, 4) == MAGIC;
    forall p | 58 <= p < 98 || 127 <= p ensures !MagicAt(f2, p) {
      NoMagicAtByte(f2, p);
    }
  }

  lemma NoneInStatus(f: Bytes, a: nat, name: Bytes, value: Bytes)
    requires LiesAt(f, a, name, value) && a < |f| && LowBitsErased(f[a])
    ensures MagicAt(f, a + 4) && forall p :: a <= p < a + 4 ==> !MagicAt(f, p)
  {
    hide Slice, LowBitsErased, Payload, NatBytes, NameLenField, WordBytes;
    forall p | a <= p < a + 4 ensures !MagicAt(f, p) {
      NoMagicInStatus(f, a, p);
    }
  }

  // ---- The next record ----

  /** Erased flash is found to begin at the last byte of the copy. */
  lemma ErasedTooEarly(medium: Medium, f: Bytes, f1: Bytes, f2: Bytes)
    requires AtLoss(f, f1) && AfterStart(medium, f1, f2)
    ensures 126 <= |f2| && ErasedFrom(f2, 126, |f2| - 126) && f2[125] != BYTE_ERASED
  {
    BytesAtLoss(f, f1);
    LongEnough(f, f1);
    hide AtLoss, Mask;
    assert f2[125] == Slice(f2, 123, 4)[2] == 0x64 && f2[126] == Slice(f2, 123, 4)[3] == 0xFF;
  }

  /** A record written there breaks the checksum of the copy, and "k" is lost. */
  lemma CopyIsSpoiled(medium: Medium, f: Bytes, f1: Bytes, f2: Bytes, f3: Bytes, name: Bytes, value: Bytes,
      maxSize: nat)
    requires AtLoss(f, f1) && AfterStart(medium, f1, f2) && RecordWritten(f2, f3, 126, name, value)
    ensures forall status, kv :: 0 <= status < KV_STATUS_NUM && Reads(f3, 98, maxSize, status, kv) ==> !kv.crcOk
  {
    hide LiesAt, RecordWritten, Reads, NatBytes, NameLenField, Payload, Crc, AtLoss, Mask;
    EndOfPayload(KEY, OLD, 1);
    PayloadOnFlash(f2, 98, KEY, OLD);
    var front := FrontOnFlash(f2, f3, 126, name, value);
    PayloadCut(f2, f3, 114, 13, 1, 126, name, value, front);
    EndChangesCrc(Slice(f2, 114, 12), front, 1);
    HeaderKept(f2, f3, 98, 126, name, value);
    forall status, kv | 0 <= status < KV_STATUS_NUM && Reads(f3, 98, maxSize, status, kv) ensures !kv.crcOk {
      CrcMismatch(f2, f3, 98, maxSize, status, kv, KEY, OLD);
    }
  }

  /** "k" = "old" and an erased byte; power is lost after the header of a record for "k" whose checksum is the magic
      word. The start copies the old record to where its walk ends. After the next start the walk ends before the end
      of the copy, at an erased byte of it; the next record, whatever it is, goes there, and the copy is lost. */
  lemma SecondMagicLosesKey(medium: Medium, f: Bytes, f1: Bytes, f2: Bytes, f3: Bytes, name: Bytes, value: Bytes,
                            maxSize: nat)
    requires AtLoss(f, f1) && AfterStart(medium, f1, f2) && 512 <= maxSize < LEN_LIMIT
    requires RecordWritten(f2, f3, 126, name, value)
    ensures Crc(0, Payload(KEY, NEW)) == WordOf(MAGIC) && !PassedOver(KEY, NEW, HEADER_CUT)
    ensures exists visits :: Walks(f1, maxSize, visits) && WalkSum(visits) == 98 && Visit(53, 24, false) in visits
    ensures exists visits :: Walks(f2, maxSize, visits) && WalkSum(visits) == 122 && Visit(98, 29, true) in visits
    ensures ErasedFrom(f2, 126, |f2| - 126) && f2[125] != BYTE_ERASED
    ensures forall status, kv :: 0 <= status < KV_STATUS_NUM && Reads(f3, 98, maxSize, status, kv) ==> !kv.crcOk
  {
    hide Walks, WalkSum, Reads, RecordWritten, LiesAt, AtLoss, AfterStart, Crc, PassedOver, NameLenField, NatBytes;
    HeaderOfNew();
    Checksums();
    Lengths();
    ChecksumBytes();
    assert Payload(KEY, NEW) == LENGTHS + (KEY + NEW);
    FirstWalk(f, f1, maxSize);
    SecondWalk(medium, f, f1, f2, maxSize);
    ErasedTooEarly(medium, f, f1, f2);
    CopyIsSpoiled(medium, f, f1, f2, f3, name, value, maxSize);
  }
}
